/** Properties of sequences of operations: a file's whole life leaves no trace, created files can be
    opened, open files stay linked, the two read paths agree. */
module Lifecycle {
  import opened Bytes
  import opened Layout
  import opened BlockMap
  import opened Volumes
  import opened Space
  import opened ReleaseBlocks
  import opened Contents
  import opened Invariants
  import opened Entries
  import opened Directory
  import opened Namespace
  import opened Trees
  import opened Paths
  import opened Filesystem
  import opened FileIo
  import opened FileOps
  import opened Directories
  import opened Accounts
  import opened Steps
  import opened Leaks
  import opened Runs
  import Mkfs

  /** Every run from a freshly formatted disk is a history of the simple file system, starting with no files, /home
      and its four directories, and 2032 free blocks. It has leaked nothing as long as no command has lost blocks. */
  method RunFromFormat(v: Volume, cmds: seq<Cmd>) returns (answers: seq<Answer>, ghost trace: seq<Abs>, ghost home: nat)
    requires FdsOk(v.fds[..], [], [])
    requires forall k :: 0 <= k < |cmds| ==> CmdOk(cmds[k])
    modifies v, v.fds
    ensures Ready(v, ROOT_INODE)
    ensures History(trace, ROOT_INODE, cmds, answers) && trace[|cmds|] == AbsIn(v)
    ensures forall k :: 0 <= k < |trace| ==> AbsOk(trace[k])
    ensures trace[0].files == map[] && Mkfs.HomesMade(trace[0].tree, home, |Mkfs.USERS|)
    ensures trace[0].free == 2032 && LeakFree(trace[0]) && exists i :: 1 <= i < TOTAL_INODES && i !in trace[0].tree.kind
    ensures forall n :: 0 <= n < |trace| ==>
              (LeakFree(trace[n]) <==> forall k :: 0 <= k < n ==> Conserving(trace[k], cmds[k]))
  {
    hide v.Meta, Mounted, TreeOk, TreeOf, FilesOf, CleanNames, ClearCount, FdsOk, CmdOk, Step, AbsOk, LeakFree, Dense,
         Conserving, Mkfs.HomesMade, Exact;
    var r;
    r, home := Mkfs.MkfsDisk(v);
    CountersAre(v);
    AbsFacts(v);
    MountedSound(v);
    Mkfs.RoomLeft(v);
    HomesHaveRoot(TreeIn(v), home);
    answers, trace := Run(v, ROOT_INODE, cmds);
    assert cmds[..|cmds|] == cmds;
    forall n | 0 <= n < |trace|
      ensures LeakFree(trace[n]) <==> forall k :: 0 <= k < n ==> Conserving(trace[k], cmds[k])
    {
      HistoryConserves(trace, ROOT_INODE, cmds, answers, n);
    }
  }

  lemma MountedSound(v: Volume)
    requires Mounted(v)
    ensures Sound(v)
  {
    hide Sound, Dense, FdsOk;
  }

  lemma HomesHaveRoot(tr: Tree, home: nat)
    requires Mkfs.HomesMade(tr, home, |Mkfs.USERS|)
    ensures ROOT_INODE in tr.ents
  {
    hide Lookup;
  }

  /** Every used descriptor names an allocated regular file that is still linked in the tree, and
      stands within it. */
  lemma OpenFilesAreLinked(v: Volume, f: nat)
    requires Fs(v) && f < v.fds.Length && v.fds[f].used
    ensures var i := v.fds[f].ino;
            && i in FilesIn(v) && v.fds[f].offset <= |FilesIn(v)[i]|
            && i in v.link && v.link[i].0 in TreeIn(v).ents
            && Lookup(TreeIn(v).ents[v.link[i].0], OwnName(TreeIn(v), v.link, i)) == Some(i)
  {
    hide v.Meta, Own, FreeOwnNothing, Dense, FdsOk, TreeOf, FilesOf, TreeOk, Lookup, OwnName;
    SoundSizes(v);
    FdCount(v.fds[..], v.inodes, v.im);
    OpenFile(v.fds[..], v.inodes, v.im, f);
    var i := v.fds[f].ino;
    FileAt(v.disk, v.inodes, v.im, i);
    RootDepth(TreeIn(v), v.link, v.depth);
    TreeAt(v.disk, v.inodes, v.im, ROOT_INODE);
    KindLinked(TreeIn(v), v.link, v.depth, i);
    OwnNameLookup(TreeIn(v), v.link, v.depth, i);
  }

  lemma KindLinked(tr: Tree, link: Links, depth: Depths, i: nat)
    requires TreeOk(tr, link, depth) && i in tr.kind && tr.kind[i] == File
    ensures i in link
  {
    hide DirsOk, DepthOk;
  }

  /** The target of a creation is, in the tree that has it, the target of opening and deleting. */
  lemma CreatedIsFound(tr: Tree, link: Links, depth: Depths, path: Str, start: nat, r: nat)
    requires TreeOk(tr, link, depth) && CreateTarget(tr, path, start).Some?
    requires 2 <= r < TOTAL_INODES && r !in tr.kind
    ensures var (d, name) := CreateTarget(tr, path, start).value;
            && d in tr.ents
            && var tr' := AddNode(tr, d, name, r, File);
               && DeleteTarget(tr', path, start) == Some((d, name, r))
               && RemoveNode(tr', d, name, r) == tr
               && (|path| < MAX_CMD_LEN ==>
                     OpenTarget(tr', path, start) == if |BaseName(path)| <= 27 then Some(r) else None)
  {
    hide TreeOk, Lookup, SplitPath, WalkAll, Tokens, BaseName, RemoveNode, Added;
    var (d, name) := CreateTarget(tr, path, start).value;
    var (dir, _) := SplitPath(path).value;
    DotsFound(tr, link, depth, d, name);
    var p := CutPath(dir);
    WalkAfterAdd(tr, link, depth, d, name, r, File, if p != [] && p[0] == SLASH then ROOT_INODE else start, Tokens(p));
    AddNodeLookup(tr, link, depth, d, name, r, File, name);
    RemoveUndoesAddNode(tr, link, depth, d, name, r, File);
    if |path| < MAX_CMD_LEN {
      ResolveSplit(AddNode(tr, d, name, r, File), path, start);
      if |BaseName(path)| > 27 {
        LongNotFound(tr, link, depth, d, name, r, File, BaseName(path));
      }
    }
  }

  /** A name of more than 27 bytes is not found, though a node was added under the first 27 of them. */
  lemma LongNotFound(tr: Tree, link: Links, depth: Depths, d: nat, name: Str, r: nat, k: Kind, long: Str)
    requires TreeOk(tr, link, depth) && d in tr.ents && 2 <= r < TOTAL_INODES && r !in tr.kind
    requires NameOk(name) && Lookup(tr.ents[d], name) == None && |name| <= 27 < |long|
    ensures var tr' := AddNode(tr, d, name, r, k); d in tr'.ents && Walk(tr', d, long) == None
  {
    hide TreeOk, Lookup, Added, DirOk, Unique;
    AddNodeLookup(tr, link, depth, d, name, r, k, long);
    DirFacts(tr, link, depth, d);
    DirFacts(tr, link, depth, Parent(link, d));
    DirOkProper(link, d, tr.ents[d]);
    LongNameMisses(tr.ents[d], long);
  }

  // ---- create, write, close, delete ----

  /** What a file newly owns after any number of writes. */
  lemma NothingRemains(bm0: seq<bool>, owner0: Owners, bm1: seq<bool>, owner1: Owners, bm2: seq<bool>, im: seq<bool>,
                       i: nat)
    requires Grow(bm0, owner0, bm1, owner1, i) && ClearedBy(bm1, bm2, OwnedBy(owner1, i))
    requires FreeOwnNothing(im, owner0) && i < |im| && !im[i]
    requires forall b :: b in owner0 ==> b < |bm0| && bm0[b]
    ensures bm2 == bm0
  {
    hide LocIno;
    forall b | 0 <= b < |bm0|
      ensures bm2[b] == bm0[b]
    {
      if b in owner0 {
        assert owner1[b] == owner0[b];
      }
    }
  }

  lemma OwnedAreMarked(d: Disk, t: Table, bm: seq<bool>, owner: Owners)
    requires Own(d, t, bm, owner)
    ensures forall b :: b in owner ==> b < |bm| && bm[b]
  {
    hide At, ValidLoc;
  }

  /** Any number of writes through one descriptor, whatever they return. */
  method WriteAll(v: Volume, fd: int, ghost ino: nat, chunks: seq<seq<byte>>)
    requires Fs(v) && 0 <= fd < v.fds.Length && v.fds[fd].used && v.fds[fd].ino == ino
    requires forall k :: 0 <= k < |chunks| ==> |chunks[k]| < WORD_LIMIT
    modifies v`disk, v`blockBits, v`bm, v`sb, v`gd, v`owner, v`inodes, v`table, v.fds
    ensures Fs(v) && TreeIn(v) == old(TreeIn(v))
    ensures forall i :: i != ino ==> (i in FilesIn(v) <==> i in old(FilesIn(v)))
                                     && (i in FilesIn(v) ==> FilesIn(v)[i] == old(FilesIn(v))[i])
    ensures Grow(old(v.bm), old(v.owner), v.bm, v.owner, ino)
    ensures v.fds[fd].used && v.fds[fd].ino == ino
    ensures forall f :: 0 <= f < v.fds.Length && f != fd ==> v.fds[f] == old(v.fds[f])
  {
    hide v.Meta, Mounted, TreeOk, TreeOf, FilesOf, Own, Grow, Stored, Fitting, Mapping;
    MountedOwns(v);
    GrowReflexive(v.disk, v.inodes, v.bm, v.owner, ino);
    for k := 0 to |chunks|
      invariant Fs(v) && TreeIn(v) == old(TreeIn(v))
      invariant forall i :: i != ino ==> (i in FilesIn(v) <==> i in old(FilesIn(v)))
                                         && (i in FilesIn(v) ==> FilesIn(v)[i] == old(FilesIn(v))[i])
      invariant Grow(old(v.bm), old(v.owner), v.bm, v.owner, ino)
      invariant v.fds[fd].used && v.fds[fd].ino == ino
      invariant forall f :: 0 <= f < v.fds.Length && f != fd ==> v.fds[f] == old(v.fds[f])
    {
      ghost var bm1, owner1, fds1 := v.bm, v.owner, v.fds[..];
      MountedOwns(v);
      var r := WriteFile(v, fd, chunks[k], true);
      if r == -1 {
        assert v.fds[..] == fds1;
        MountedOwns(v);
        GrowReflexive(v.disk, v.inodes, v.bm, v.owner, ino);
      }
      assert v.fds[..][fd] == v.fds[fd];
      assert forall f :: 0 <= f < v.fds.Length && f != fd ==> v.fds[..][f] == fds1[f];
      GrowTransitive(old(v.bm), old(v.owner), bm1, owner1, v.bm, v.owner, ino);
    }
  }

  lemma MountedOwns(v: Volume)
    requires Mounted(v)
    ensures Own(v.disk, v.inodes, v.bm, v.owner) && v.fds.Length == MAX_OPEN_FILES && v.Meta()
    ensures FreeOwnNothing(v.im, v.owner) && |v.im| == |v.inodes| == TOTAL_INODES
    ensures FdsOk(v.fds[..], v.inodes, v.im)
  {
    hide v.Meta, Own, FreeOwnNothing, Dense;
    FdTable(v);
    SoundSizes(v);
  }

  /** Opens the file, writes, closes. */
  method UseFile(v: Volume, path: Str, start: nat, ghost ino: nat, chunks: seq<seq<byte>>)
    requires Fs(v) && start in TreeIn(v).kind && !IsOpen(v.fds[..], ino)
    requires OpenTarget(TreeIn(v), path, start) in [Some(ino), None]
    requires forall k :: 0 <= k < |chunks| ==> |chunks[k]| < WORD_LIMIT
    modifies v`disk, v`blockBits, v`bm, v`sb, v`gd, v`owner, v`inodes, v`table, v.fds
    ensures Fs(v) && TreeIn(v) == old(TreeIn(v)) && !IsOpen(v.fds[..], ino)
    ensures forall i :: i != ino ==> (i in FilesIn(v) <==> i in old(FilesIn(v)))
                                     && (i in FilesIn(v) ==> FilesIn(v)[i] == old(FilesIn(v))[i])
    ensures Grow(old(v.bm), old(v.owner), v.bm, v.owner, ino)
  {
    hide v.Meta, Mounted, TreeOk, TreeOf, FilesOf, Own, Grow, FreeOwnNothing, OpenTarget, FdsOk;
    MountedOwns(v);
    GrowReflexive(v.disk, v.inodes, v.bm, v.owner, ino);
    ghost var fds0 := v.fds[..];
    var fd := OscdfsOpen(v, path, start, ReadWrite, true);
    if fd == -1 {
      return;
    }
    assert forall f :: 0 <= f < |fds0| && f != fd ==> v.fds[..][f] == fds0[f];
    assert v.fds[..][fd].used && v.fds[..][fd].ino == ino;
    MountedOwns(v);
    WriteAll(v, fd, ino, chunks);
    MountedOwns(v);
    var _ := OscdfsClose(v, fd);
    forall f | 0 <= f < |v.fds[..]| && v.fds[..][f].used
      ensures v.fds[..][f].ino != ino
    {
      assert f != fd;
      assert v.fds[..][f] == fds0[f];
    }
  }

  /** A file's whole life: create, open, any number of writes (also ones that fill the disk), close and delete
      return both bitmaps, both pairs of counters, the tree and all other files to what they were. Under a name that
      does not fit, nothing is opened in between. */
  method FileLife(v: Volume, path: Str, start: nat, chunks: seq<seq<byte>>) returns (created: int, deleted: int)
    requires Fs(v) && start in TreeIn(v).kind
    requires forall k :: 0 <= k < |chunks| ==> |chunks[k]| < WORD_LIMIT
    requires |path| < MAX_CMD_LEN
    modifies v, v.fds
    ensures Fs(v) && (created != -1 ==> deleted == 0)
    ensures v.bm == old(v.bm) && v.im == old(v.im) && v.sb == old(v.sb) && v.gd == old(v.gd)
    ensures TreeIn(v) == old(TreeIn(v)) && FilesIn(v) == old(FilesIn(v))
  {
    hide v.Meta, Mounted, TreeOk, TreeOf, FilesOf, Own, Grow, FreeOwnNothing, CreateTarget, DeleteTarget, OpenTarget,
         AddNode, RemoveNode, ClearedBy, OwnedBy, WithoutIno, BaseName, FdsOk, IsOpen, ClearCount;
    MountedOwns(v);
    OwnedAreMarked(v.disk, v.inodes, v.bm, v.owner);
    CountersAre(v);
    ghost var tr, link, depth, files := TreeIn(v), v.link, v.depth, FilesIn(v);
    FilesAreKinds(v.disk, v.inodes, v.im);
    deleted := 0;
    created := OscdfsCreate(v, path, start, true);
    if created == -1 {
      CountersAre(v);
      return;
    }
    CreatedIsFound(tr, link, depth, path, start, created);
    NeverOpened(v.fds[..], old(v.inodes), old(v.im), old(v.disk), created);
    KindGrows(tr, path, start, created);
    UseFile(v, path, start, created, chunks);
    ghost var bm1, owner1, files1 := v.bm, v.owner, FilesIn(v);
    deleted := OscdfsDelete(v, path, start, true);
    NothingRemains(old(v.bm), old(v.owner), bm1, owner1, v.bm, old(v.im), created);
    FilesBack(files, files1, created);
    assert v.im == old(v.im);
    CountersAre(v);
  }

  lemma FilesAreKinds(d: Disk, t: Table, im: seq<bool>)
    ensures forall i :: i in FilesOf(d, t, im) ==> i in TreeOf(d, t, im).kind
  {
    hide Content, Ents;
  }

  lemma FilesBack(files: map<nat, seq<byte>>, files1: map<nat, seq<byte>>, i: nat)
    requires i !in files
    requires forall j :: j != i ==> (j in files1 <==> j in files) && (j in files1 ==> files1[j] == files[j])
    ensures files1 - {i} == files
  {
  }

  /** No descriptor can name an inode that was not allocated. */
  lemma NeverOpened(fds: seq<Fd>, t: Table, im: seq<bool>, d: Disk, i: nat)
    requires FdsOk(fds, t, im) && |t| == |im| == TOTAL_INODES && 1 <= i < TOTAL_INODES && i !in TreeOf(d, t, im).kind
    ensures !IsOpen(fds, i) && !im[i]
  {
    hide Ents;
    TreeAt(d, t, im, i);
  }

  lemma KindGrows(tr: Tree, path: Str, start: nat, r: nat)
    requires CreateTarget(tr, path, start).Some? && start in tr.kind
    ensures var (d, name) := CreateTarget(tr, path, start).value;
            d in tr.ents && start in AddNode(tr, d, name, r, File).kind
  {
    hide Resolve, SplitPath, Lookup, Added;
  }

  // ---- mkdir, rmdir ----

  lemma SplitsAgree(path: Str)
    requires KernelPath(path)
    ensures LastSlash(path) >= 0 && path != [] && SplitFuse(path) == (DirName(path), Cut(BaseName(path)))
  {
    hide LastSlash;
  }

  /** A directory just made is what its path resolves to, is empty, and removing it restores the tree; under a name
      that does not fit it is not found again. */
  lemma MadeIsFound(tr: Tree, link: Links, depth: Depths, path: Str, r: nat)
    requires TreeOk(tr, link, depth) && KernelPath(path)
    requires MkdirCheck(tr, path, true).0 == Done && 2 <= r < TOTAL_INODES && r !in tr.kind
    ensures var (_, d, name) := MkdirCheck(tr, path, true);
            && d in tr.ents && name == Cut(BaseName(path))
            && var tr' := AddNode(tr, d, name, r, Dir);
               && Resolve(tr', DirName(path), ROOT_INODE) == Some(d) && RemoveNode(tr', d, name, r) == tr
               && Resolve(tr', path, ROOT_INODE) == (if |BaseName(path)| <= 27 then Some(r) else None)
               && RmdirCheck(tr', path, true) == if |BaseName(path)| <= 27 then Done else ENOENT
  {
    hide TreeOk, Lookup, WalkAll, Tokens, BaseName, DirName, SplitFuse, LastSlash, RemoveNode, Added, EmptyDir;
    SplitsAgree(path);
    var (_, d, name) := MkdirCheck(tr, path, true);
    DotsFound(tr, link, depth, d, name);
    var tr' := AddNode(tr, d, name, r, Dir);
    var p := CutPath(DirName(path));
    WalkAfterAdd(tr, link, depth, d, name, r, Dir, ROOT_INODE, Tokens(p));
    AddNodeLookup(tr, link, depth, d, name, r, Dir, name);
    RemoveUndoesAddNode(tr, link, depth, d, name, r, Dir);
    ResolveLast(tr', path, ROOT_INODE);
    if |BaseName(path)| <= 27 {
      FoundInNew(tr, d, name, r);
    } else {
      LongNotFound(tr, link, depth, d, name, r, Dir, BaseName(path));
    }
  }

  lemma FoundInNew(tr: Tree, d: nat, name: Str, r: nat)
    requires d in tr.ents
    ensures var tr' := AddNode(tr, d, name, r, Dir); r in tr'.ents && EmptyDir(tr'.ents[r])
  {
    hide Added;
  }

  /** Making a directory and removing it again returns both bitmaps, all counters, the tree and the files to what they
      were, exactly when the name fits; a directory with a longer name is made, and not found by the removal. */
  method DirLife(v: Volume, path: Str) returns (made: Status, removed: Status)
    requires Fs(v) && KernelPath(path)
    modifies v
    ensures Fs(v) && (made == Done ==> removed == if |BaseName(path)| <= 27 then Done else ENOENT)
    ensures made != Done || removed == Done ==>
              && v.bm == old(v.bm) && v.im == old(v.im) && v.sb == old(v.sb) && v.gd == old(v.gd)
              && TreeIn(v) == old(TreeIn(v))
    ensures made == Done && removed != Done ==> v.im != old(v.im) && ClearCount(v.bm) == ClearCount(old(v.bm)) - 1
    ensures FilesIn(v) == old(FilesIn(v))
  {
    hide v.Meta, Mounted, TreeOk, TreeOf, FilesOf, Own, Grow, FreeOwnNothing, AddNode, RemoveNode, ClearedBy, OwnedBy,
         WithoutIno, BaseName, DirName, KernelPath, MkdirCheck, RmdirCheck, Resolve, FdsOk, ClearCount;
    MountedOwns(v);
    OwnedAreMarked(v.disk, v.inodes, v.bm, v.owner);
    CountersAre(v);
    KernelPathParts(path);
    ghost var tr, link, depth := TreeIn(v), v.link, v.depth;
    ghost var r;
    removed := Done;
    made, r := FuseMkdir(v, path, true);
    if made != Done {
      CountersAre(v);
      return;
    }
    MadeIsFound(tr, link, depth, path, r);
    NeverUsed(old(v.disk), old(v.inodes), old(v.im), r);
    ghost var bm1, owner1 := v.bm, v.owner;
    removed := FuseRmdir(v, path, true);
    if removed != Done {
      assert v.im[r];
      return;
    }
    NameThatFits(path);
    NothingRemains(old(v.bm), old(v.owner), bm1, owner1, v.bm, old(v.im), r);
    CountersAre(v);
  }

  lemma NameThatFits(path: Str)
    ensures |BaseName(path)| <= 27 ==> Cut(BaseName(path)) == BaseName(path)
  {
  }

  lemma NeverUsed(d: Disk, t: Table, im: seq<bool>, i: nat)
    requires |t| == |im| == TOTAL_INODES && 1 <= i < TOTAL_INODES && i !in TreeOf(d, t, im).kind
    ensures !im[i]
  {
    hide Ents;
    TreeAt(d, t, im, i);
  }

  // ---- the two read paths and the two write paths ----

  /** The reader that divides its position each round and the reader that steps a block counter return
      the same bytes of any file, holes included. */
  method ReadersAgree(v: Volume, fd: nat, n: nat) returns (r1: int, buf1: seq<byte>, r2: int, buf2: seq<byte>)
    requires Sound(v) && FdsOk(v.fds[..], v.inodes, v.im) && n < WORD_LIMIT
    requires fd < v.fds.Length && v.fds[fd].used && v.fds[fd].mode != WriteOnly
    requires v.inodes[v.fds[fd].ino].size <= WORD_LIMIT - BLOCK_SIZE
    modifies v`disk, v`blockBits, v`bm, v`sb, v`gd, v`owner, v.fds
    ensures r1 == r2 == |buf1| && buf1 == buf2
  {
    hide v.Meta, Own, FreeOwnNothing, ReadBytes, Content;
    OpenFile(v.fds[..], v.inodes, v.im, fd);
    r2, buf2 := OscdfsReadInode(v, v.fds[fd].ino, v.fds[fd].offset, n);
    r1, buf1 := OscdfsRead(v, fd, n, true);
  }

  /** On two copies of one volume the two writers store the same number of bytes, so that the one succeeds exactly
      when the other reports all of them. On a file without holes they then leave the same bytes. */
  method WritersAgree(v: Volume, w: Volume, fd: nat, data: seq<byte>) returns (r1: int, r2: int, ghost stored: nat)
    requires v != w && v.fds != w.fds && Mounted(v) && Sound(w)
    requires w.disk == v.disk && w.inodes == v.inodes && w.im == v.im && w.bm == v.bm
    requires fd < v.fds.Length && v.fds[fd].used && v.fds[fd].mode != ReadOnly
    requires v.fds[fd].offset + |data| < WORD_LIMIT
    modifies v`disk, v`blockBits, v`bm, v`sb, v`gd, v`owner, v`inodes, v`table, v.fds,
             w`disk, w`blockBits, w`bm, w`sb, w`gd, w`owner, w`inodes, w`table
    ensures r1 == stored && r2 == (if r1 == |data| then |data| else -1) && w.bm == v.bm
    ensures var i := old(v.fds[fd]).ino;
            && i < |v.inodes| == |w.inodes| && i < |old(v.inodes)|
            && (r1 == |data| && old(Mapped(v.disk, v.inodes, i, 0, v.inodes[i].size)) ==>
                  Content(v.disk, v.inodes, i) == Content(w.disk, w.inodes, i))
  {
    hide v.Meta, Own, FreeOwnNothing, FdsOk, Dense, KeepsDense, WriteBytes, Content, Mapped, FileWritten, InodeWritten,
         Exact;
    OpenFile(v.fds[..], v.inodes, v.im, fd);
    SoundSizes(v);
    OwnersAgree(v.disk, v.inodes, v.bm, v.owner, w.bm, w.owner);
    var i, off := v.fds[fd].ino, v.fds[fd].offset;
    r2, stored := OscdfsWriteInode(w, i, data, off);
    r1 := OscdfsWrite(v, fd, data, true);
    SoundSizes(v);
    SameSpace(old(v.disk), old(v.inodes), old(v.bm), old(v.owner), v.disk, v.inodes, v.bm, v.owner,
              w.disk, w.inodes, w.bm, w.owner, i, off, data, r1, r2, stored);
    if r1 == |data| && old(Mapped(v.disk, v.inodes, i, 0, v.inodes[i].size)) {
      DenseWritten(old(v.disk), old(v.inodes), old(v.bm), old(v.owner), v.disk, v.inodes, v.bm, v.owner, i, off, data,
                   r1);
      FuseWriteDense(old(w.disk), old(w.inodes), old(w.bm), old(w.owner), w.disk, w.inodes, w.bm, w.owner, i, off,
                     data, r2, stored);
      assert data[..|data|] == data;
    }
  }

  /** Both writers take the blocks that mapping the range takes. */
  lemma SameSpace(d0: Disk, t0: Table, bm0: seq<bool>, owner0: Owners,
                  d1: Disk, t1: Table, bm1: seq<bool>, owner1: Owners,
                  d2: Disk, t2: Table, bm2: seq<bool>, owner2: Owners,
                  i: nat, off: nat, data: seq<byte>, r1: int, r2: int, stored: nat)
    requires i < |t0| == |t1| == |t2|
    requires FileWritten(d0, t0, bm0, owner0, d1, t1, bm1, owner1, i, off, data, r1)
    requires InodeWritten(d0, t0, bm0, owner0, d2, t2, bm2, owner2, i, off, data, r2, stored)
    ensures r1 == stored && r2 == (if r1 == |data| then |data| else -1) && bm1 == bm2
  {
    hide OthersSame, MapGrown, MapKept, PlacesKept, BytesStored, BytesKept, PlaceAll, Rooted, FreeKept, Grow, Img;
  }

  /** All counters are functions of the two bitmaps. */
  lemma CountersAre(v: Volume)
    requires Mounted(v)
    ensures v.sb == SuperBlock(MAGIC, TOTAL_BLOCKS, ClearCount(v.bm), TOTAL_INODES, ClearCount(v.im) + 1, ROOT_INODE,
                               BLOCK_SIZE)
    ensures v.gd == GroupDesc(2, 3, 4, ClearCount(v.bm), ClearCount(v.im) + 1)
  {
    hide Own, FreeOwnNothing, Dense, FdsOk, Reads, ClearCount;
  }
}
