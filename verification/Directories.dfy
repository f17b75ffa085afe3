/** Making and removing directories: `create_dir` of mkfs.c, `fuse_mkdir` and `fuse_rmdir` of fuse.c. */
module Directories {
  import opened Bytes
  import opened Layout
  import opened BlockMap
  import opened Volumes
  import opened Bitmap
  import opened InodeMap
  import opened ReleaseBlocks
  import opened Space
  import opened Contents
  import opened Invariants
  import opened Entries
  import opened Directory
  import opened Namespace
  import opened Trees
  import opened Listing
  import opened Paths
  import opened PathLaws
  import opened Filesystem
  import opened FileOps
  import FileIo

  datatype Status = Done | ENOENT | ENOTDIR | EISDIR | EACCES | EEXIST | ENOSPC | ENOTEMPTY

  /** The block of a new directory, made from a zeroed buffer. */
  function DirBlock(zeros: Block, i: nat, parent: nat): Block
    requires i < WORD_LIMIT && parent < WORD_LIMIT
  {
    SetEntry(SetEntry(zeros, 0, Entry(i, DOT)), 1, Entry(parent, DOTDOT))
  }

  lemma DirBlockReads(i: nat, parent: nat)
    requires i < WORD_LIMIT && parent < WORD_LIMIT
    ensures Flat([DirBlock(ZERO, i, parent)]) == NewDir(i, parent)
  {
    hide EntryAt, SetEntry;
    var b1 := SetEntry(ZERO, 0, Entry(i, DOT));
    var f, g := Flat([DirBlock(ZERO, i, parent)]), NewDir(i, parent);
    forall j | 0 <= j < SLOTS
      ensures f[j] == g[j]
    {
      EntryAfterSet(b1, 1, Entry(parent, DOTDOT), j);
      EntryAfterSet(ZERO, 0, Entry(i, DOT), j);
      ZeroEntries(j);
    }
  }

  /** Allocating and filling the first block of a fresh directory, and storing its inode. */
  lemma FirstBlock(d0: Disk, t0: Table, bm0: seq<bool>, owner0: Owners,
                   d1: Disk, t1: Table, bm1: seq<bool>, owner1: Owners, t2: Table,
                   im: seq<bool>, i: nat, parent: nat, r: int)
    requires Own(d0, t0, bm0, owner0) && i < TOTAL_INODES == |im| && im[i] && FreeOwnNothing(im, owner0)
    requires forall k: nat :: k < TRIPLE_END ==> Img(d0, t0, i, k) == None
    requires Got(d0, t0, bm0, owner0, d1, t1, bm1, owner1, true, LocOf(i, 0), r) && r != -1
    requires |t1| == |t2| == TOTAL_INODES && (forall j :: 0 <= j < |t0| && j != i ==> t1[j] == t0[j])
    requires t2 == t1[i := t1[i].(size := BLOCK_SIZE)] && parent < WORD_LIMIT
    ensures 0 < r < |d1|
    ensures var d2 := d1[r := DirBlock(ZERO, i, parent)];
            && Own(d2, t2, bm1, owner1) && Grow(bm0, owner0, bm1, owner1, i)
            && OthersSame(d0, t0, d2, t2, i) && Tidy(d0, t0, bm0, owner0, d2, t2, bm1, owner1)
            && Ents(d2, t2, i) == NewDir(i, parent) && FreeOwnNothing(im, owner1)
  {
    hide At, ValidLoc, Own, LocOf, BlocksFrom, DirBlock, Flat, Got, Grow, Img, RootPtr, LocIno, NewDir, Mapped,
         KeepsDense, Height, RootSlot, Exact;
    OwnSizes(d0, t0, bm0, owner0);
    LocOfIsValid(i, 0);
    GotParts(d0, t0, bm0, owner0, d1, t1, bm1, owner1, true, LocOf(i, 0), r);
    var blk := DirBlock(ZERO, i, parent);
    StoreBlock(d0, t0, bm0, owner0, d1, t1, bm1, owner1, i, 0, r, blk);
    NamedInRange(d1, t1, bm1, owner1, LocOf(i, 0));
    var d2 := d1[r := blk];
    SizeOnly(t1, i, t2[i]);
    SameRootsOwn(d2, t1, t2, bm1, owner1);
    OthersFromImages(d0, t0, d2, t2, i);
    assert 1 < TRIPLE_END;
    assert Img(d0, t0, i, 1) == None;
    assert Img(d2, t1, i, 1) == Img(d0, t0, i, 1);
    assert Img(d2, t2, i, 1) == Img(d2, t1, i, 1);
    OneBlock(d2, t2, i, blk);
    DirBlockReads(i, parent);
    OneKeepsDense(d0, t0, d2, t2, i);
    GrowExact(bm0, owner0, bm1, owner1, i, im);
  }

  lemma OneBlock(d: Disk, t: Table, i: nat, blk: Block)
    requires Img(d, t, i, 0) == Some(blk) && Img(d, t, i, 1) == None
    ensures Ents(d, t, i) == Flat([blk])
    ensures forall from: nat :: Mapped(d, t, i, from, BLOCK_SIZE)
  {
    hide Img, Flat;
    BlocksFromPrefix(d, t, i, 0, [blk]);
    assert BlocksFrom(d, t, i, 1) == [];
    assert [blk] + [] == [blk];
  }

  lemma FreshImages(d: Disk, t: Table, bm: seq<bool>, owner: Owners, im: seq<bool>, i: nat)
    requires Own(d, t, bm, owner) && FreeOwnNothing(im, owner) && i < TOTAL_INODES == |im| && !im[i]
    ensures forall k: nat :: k < TRIPLE_END ==> Img(d, t, i, k) == None
  {
    hide At, ValidLoc, LocOf, LocIno, Height, LbOf, RootSlot;
    forall k: nat | k < TRIPLE_END
      ensures Img(d, t, i, k) == None
    {
      LocOfIsValid(i, k);
    }
  }

  /** Allocates the first block of directory `i`, fills in "." and ".." and stores the inode;
      fails, changing nothing, exactly when the disk is full. */
  method FillDir(v: Volume, i: nat, parent: nat) returns (blk: int)
    requires Sound(v)
    requires i < TOTAL_INODES && |v.im| == TOTAL_INODES && v.im[i] && parent < WORD_LIMIT && v.inodes[i].kind == Dir
    requires forall k: nat :: k < TRIPLE_END ==> Img(v.disk, v.inodes, i, k) == None
    modifies v`disk, v`blockBits, v`bm, v`sb, v`gd, v`owner, v`inodes, v`table
    ensures Sound(v)
    ensures Tidy(old(v.disk), old(v.inodes), old(v.bm), old(v.owner), v.disk, v.inodes, v.bm, v.owner)
    ensures blk >= -1 && (blk == -1 <==> forall b :: 0 <= b < TOTAL_BLOCKS ==> old(v.bm)[b])
    ensures blk == -1 ==> && v.disk == old(v.disk) && v.bm == old(v.bm) && v.owner == old(v.owner)
                          && v.inodes == old(v.inodes)
    ensures blk != -1 ==> && Ents(v.disk, v.inodes, i) == NewDir(i, parent)
                          && OthersSame(old(v.disk), old(v.inodes), v.disk, v.inodes, i)
                          && (forall j :: 0 <= j < TOTAL_INODES && j != i ==> v.inodes[j] == old(v.inodes)[j])
                          && v.inodes[i].kind == Dir
                          && Grow(old(v.bm), old(v.owner), v.bm, v.owner, i)
                          && Place(old(v.owner), old(v.bm), Slot(i, 0)) == (true, v.owner, v.bm)
                          && 0 <= blk < |old(v.bm)| && !old(v.bm)[blk] && v.bm == old(v.bm)[blk := true]
  {
    hide v.Meta, Own, FreeOwnNothing, Ents, Tidy, OthersSame, Img, Got, LocOf, SetEntry, NewDir, Grow, Place;
    SoundSizes(v);
    FirstLoc(i);
    TidyReflexive(v.disk, v.inodes, v.bm, v.owner);
    var inode: Inode, ok: bool;
    ok, inode := ReadInode(v, i);
    assert v.inodes[i := inode] == v.inodes;
    NotMapped(v.disk, v.inodes, v.bm, v.owner, i);
    inode, blk := InodeGetBlock(v, inode, 0, true, i);
    ghost var d1, t1 := v.disk, v.inodes[i := inode];
    FileIo.FoundRange(old(v.disk), v.inodes, old(v.bm), old(v.owner), d1, t1, v.bm, v.owner, i, 0, blk);
    if blk < 0 {
      return -1;
    }
    var buf := ZERO;
    buf := SetEntry(buf, 0, Entry(i, DOT));
    buf := SetEntry(buf, 1, Entry(parent, DOTDOT));
    v.disk := v.disk[blk := buf];
    inode := inode.(size := BLOCK_SIZE);
    ok := WriteInode(v, i, inode);
    FirstBlock(old(v.disk), old(v.inodes), old(v.bm), old(v.owner), d1, t1, v.bm, v.owner, v.inodes, v.im, i, parent,
               blk);
  }

  lemma FirstLoc(i: nat)
    ensures LocOf(i, 0) == Slot(i, 0)
  {
  }

  lemma GroupCounts(v: Volume)
    requires v.Meta()
    ensures v.gd.freeBlocksCount == ClearCount(v.bm) && v.gd.freeInodesCount == ClearCount(v.im) + 1
  {
  }

  /** Inodes or blocks have run out. */
  ghost predicate Full(tr: Tree, bm: seq<bool>) {
    (forall i :: 1 <= i < TOTAL_INODES ==> i in tr.kind) || (forall b :: 0 <= b < |bm| ==> bm[b])
  }

  /** Makes an empty directory: an inode, one block with "." and "..", and a name in the parent.
      Rolls back the inode when no block is left. */
  method MakeDir(v: Volume, dir: nat, name: Str) returns (r: int)
    requires Fs(v) && dir in TreeIn(v).ents && |name| <= 27 && Lookup(TreeIn(v).ents[dir], name) == None
    modifies v
    ensures Fs(v)
    ensures Tidy(old(v.disk), old(v.inodes), old(v.bm), old(v.owner), v.disk, v.inodes, v.bm, v.owner)
    ensures |old(v.bm)| == TOTAL_BLOCKS
    ensures r >= -1
    ensures r == -1 <==> Full(old(TreeIn(v)), old(v.bm))
    ensures r == -1 ==> && TreeIn(v) == old(TreeIn(v)) && FilesIn(v) == old(FilesIn(v))
                        && v.bm == old(v.bm) && v.im == old(v.im) && v.owner == old(v.owner)
    ensures r != -1 ==> && NextInode(old(TreeIn(v)), r)
                        && TreeIn(v) == AddNode(old(TreeIn(v)), dir, name, r, Dir)
                        && FilesIn(v) == old(FilesIn(v))
                        && Grow(old(v.bm), old(v.owner), v.bm, v.owner, r) && v.im == old(v.im)[r := true]
                        && Place(old(v.owner), old(v.bm), Slot(r, 0)) == (true, v.owner, v.bm)
                        && v.gd.freeBlocksCount == old(v.gd.freeBlocksCount) - 1
                        && v.gd.freeInodesCount == old(v.gd.freeInodesCount) - 1
                        && ClearCount(v.bm) == ClearCount(old(v.bm)) - 1
  {
    hide v.Meta, Own, FreeOwnNothing, TreeOk, Lookup, Ents, Content, Exact, Dense, FdsOk, OthersSame, SameImg, TreeOf,
         FilesOf, AddNode, FreshInode, Live, Img, NewDir, Grow, ClearCount, KeepsDense, FreeKept, Agree, Place,
         NextInode;
    SoundSizes(v);
    TidyReflexive(v.disk, v.inodes, v.bm, v.owner);
    MetaSizes(v);
    GroupCounts(v);
    AllTaken(v.disk, v.inodes, v.im);
    DirInRange(v.disk, v.inodes, v.im, dir);
    r := AllocInode(v);
    if r < 0 {
      return -1;
    }
    InodeInit(v, r, Dir);
    FreshInodeStep(old(v.disk), old(v.inodes), v.bm, v.owner, old(v.im), r, Dir);
    FreshImages(v.disk, v.inodes, v.bm, v.owner, old(v.im), r);
    FreshSize(Dir);
    FreshOthers(old(v.disk), old(v.inodes), v.disk, v.inodes, r);
    ghost var t0 := v.inodes;
    var blk := FillDir(v, r, dir);
    if blk < 0 {
      var _ := FreeInode(v, r);
      RolledBack(v.disk, old(v.inodes), v.inodes, old(v.im), r);
      KeepsDenseTransitive(v.disk, old(v.inodes), v.disk, t0, v.disk, v.inodes);
      KeepsAt(old(v.disk), old(v.inodes), v.disk, v.inodes, FUSE_LIMIT);
      FdsStay(v.fds[..], old(v.inodes), v.inodes, old(v.im), v.im, r);
      assert v.im == old(v.im);
      return -1;
    }
    SoundSizes(v);
    OthersTransitive(old(v.disk), old(v.inodes), old(v.disk), t0, v.disk, v.inodes, r);
    FdsStay(v.fds[..], old(v.inodes), v.inodes, old(v.im), v.im, r);
    KeepsDenseTransitive(old(v.disk), old(v.inodes), old(v.disk), t0, v.disk, v.inodes);
    KeepsAt(old(v.disk), old(v.inodes), v.disk, v.inodes, FUSE_LIMIT);
    ghost var d1, bm1 := v.disk, v.bm;
    var ok := NameNode(v, dir, name, r, Dir, old(v.disk), old(v.inodes), old(v.im));
    KeepsDenseTransitive(old(v.disk), old(v.inodes), d1, v.inodes, v.disk, v.inodes);
    KeptTwice(old(v.disk), d1, v.disk, v.bm);
    NextIs(old(v.disk), old(v.inodes), old(v.im), r);
    ClearCountUpdate(old(v.bm), blk, true);
    ClearCountUpdate(old(v.im), r, true);
    GroupCounts(v);
  }

  lemma KeptTwice(d0: Disk, d1: Disk, d2: Disk, bm: seq<bool>)
    requires FreeKept(d0, d1, bm) && FreeKept(d1, d2, bm)
    ensures FreeKept(d0, d2, bm)
  {
  }

  lemma OthersTransitive(d0: Disk, t0: Table, d1: Disk, t1: Table, d2: Disk, t2: Table, i: nat)
    requires OthersSame(d0, t0, d1, t1, i) && OthersSame(d1, t1, d2, t2, i)
    ensures OthersSame(d0, t0, d2, t2, i)
  {
    hide Img;
    forall j: nat | j < TOTAL_INODES && j != i
      ensures SameImg(d0, t0, d2, t2, j)
    {
      assert SameImg(d0, t0, d1, t1, j) && SameImg(d1, t1, d2, t2, j);
    }
  }

  lemma NotMapped(d: Disk, t: Table, bm: seq<bool>, owner: Owners, i: nat)
    requires Own(d, t, bm, owner) && i < TOTAL_INODES
    requires forall k: nat :: k < TRIPLE_END ==> Img(d, t, i, k) == None
    ensures |t| == TOTAL_INODES && t[i].blocks[0] == 0
  {
    hide At, ValidLoc;
    OwnSizes(d, t, bm, owner);
    assert Img(d, t, i, 0) == None;
    AtSlot(d, t, i, 0);
    NamedOrNot(d, t, bm, owner, Slot(i, 0));
  }

  lemma NamedOrNot(d: Disk, t: Table, bm: seq<bool>, owner: Owners, l: Loc)
    requires Own(d, t, bm, owner) && ValidLoc(l)
    ensures At(d, t, l) != 0 ==> 0 < At(d, t, l) < |d|
  {
    hide At, ValidLoc;
  }

  /** An inode that is initialised and freed again leaves no trace in the tree. */
  lemma RolledBack(d: Disk, t: Table, t': Table, im: seq<bool>, i: nat)
    requires |t| == |t'| == |im| == TOTAL_INODES && 1 <= i < TOTAL_INODES && !im[i]
    requires OthersSame(d, t, d, t', i) && forall j :: 0 <= j < |t| && j != i ==> t'[j] == t[j]
    ensures TreeOf(d, t', im) == TreeOf(d, t, im) && FilesOf(d, t', im) == FilesOf(d, t, im)
  {
    hide TreeOf, FilesOf, SameBut, OthersSame;
    OnlyOneDiffers(d, t, d, t', im, i, false);
    assert im[i := false] == im;
    UnseenTree(d, t, im, t', i);
    UnseenFiles(d, t, im, t', i);
  }

  lemma UnseenTree(d: Disk, t: Table, im: seq<bool>, t': Table, i: nat)
    requires SameBut(d, t, im, d, t', im, i) && i < TOTAL_INODES && !im[i]
    ensures TreeOf(d, t', im) == TreeOf(d, t, im)
  {
    hide Ents, Content;
  }

  lemma UnseenFiles(d: Disk, t: Table, im: seq<bool>, t': Table, i: nat)
    requires SameBut(d, t, im, d, t', im, i) && i < TOTAL_INODES && !im[i]
    ensures FilesOf(d, t', im) == FilesOf(d, t, im)
  {
    hide Ents, Content;
  }

  /** fuse.c splits a path itself: parent directory and, cut to 27 bytes, last component. */
  function SplitFuse(path: Str): (r: (Str, Str))
    requires path != []
    ensures |r.1| <= 27 && SLASH !in r.1
  {
    var k := LastSlash(path);
    if k <= 0 then ([SLASH], Cut(path[1..])) else (path[..k], Cut(path[k + 1..]))
  }

  /** When each answer of `fuse_mkdir` is given: `dir` is what the path before the last '/' stands for, `full` says
      that inodes or blocks have run out. */
  ghost predicate MkdirAnswers(tr: Tree, dir: Option<nat>, name: Str, permitted: bool, full: bool, st: Status) {
    && (st == ENOENT <==> dir == None)
    && (st == ENOTDIR <==> dir.Some? && IsFile(tr, dir.value))
    && (st == EACCES <==> dir.Some? && IsDir(tr, dir.value) && !permitted)
    && (st == EEXIST <==> dir.Some? && IsDir(tr, dir.value) && permitted && Listed(tr, dir.value, name))
    && (st == ENOSPC <==> dir.Some? && IsDir(tr, dir.value) && permitted && !Listed(tr, dir.value, name) && full)
    && (st == Done <==> dir.Some? && IsDir(tr, dir.value) && permitted && !Listed(tr, dir.value, name) && !full)
  }

  /** The two parts are those around the last '/'; the name is cut to its first 27 bytes. */
  lemma SplitFuseIs(a: Str, c: Str)
    requires SLASH !in c
    ensures SplitFuse(a + [SLASH] + c) == (if a == [] then [SLASH] else a, Cut(c))
  {
    hide LastSlash;
    LastSlashIs(a, c, a + [SLASH] + c);
  }

  lemma LastSlashIs(a: Str, c: Str, s: Str)
    requires SLASH !in c && s == a + [SLASH] + c
    ensures LastSlash(s) == |a| && s[..|a|] == a && s[|a| + 1..] == c
  {
    hide LastSlash;
    assert s[|a|] == SLASH;
    forall j | |a| < j < |s|
      ensures s[j] != SLASH
    {
      assert s[j] == c[j - |a| - 1];
    }
  }

  /** What `fuse_mkdir` answers, before it needs resources. */
  ghost function MkdirCheck(tr: Tree, path: Str, permitted: bool): (Status, nat, Str)
    requires path != []
  {
    var (dirPath, name) := SplitFuse(path);
    match Resolve(tr, dirPath, ROOT_INODE)
    case None => (ENOENT, 0, name)
    case Some(d) =>
      if d !in tr.ents then (ENOTDIR, d, name)
      else if !permitted then (EACCES, d, name)
      else if Lookup(tr.ents[d], name).Some? then (EEXIST, d, name)
      else (Done, d, name)
  }

  lemma ChecksAnswer(tr: Tree, link: Links, depth: Depths, path: Str, permitted: bool, full: bool)
    requires TreeOk(tr, link, depth) && path != []
    ensures var (dirPath, name) := SplitFuse(path);
            var check := MkdirCheck(tr, path, permitted).0;
            MkdirAnswers(tr, Resolve(tr, dirPath, ROOT_INODE), name, permitted, full,
                         if check != Done then check else if full then ENOSPC else Done)
  {
    hide TreeOk, Lookup, WalkAll, Tokens, SplitFuse, Listed;
    var (dirPath, name) := SplitFuse(path);
    var d := Resolve(tr, dirPath, ROOT_INODE);
    RootDepth(tr, link, depth);
    if d.Some? {
      var p := CutPath(dirPath);
      WalkStays(tr, link, depth, ROOT_INODE, Tokens(p));
      DirHasEnts(tr, link, depth, d.value);
      if d.value in tr.ents {
        ListedIsMapped(tr, link, depth, d.value, name);
      }
    }
  }

  method FuseMkdir(v: Volume, path: Str, permitted: bool) returns (st: Status, ghost made: nat)
    requires Fs(v) && path != [] && LastSlash(path) < MAX_CMD_LEN
    modifies v
    ensures Fs(v) && FilesIn(v) == old(FilesIn(v))
    ensures Tidy(old(v.disk), old(v.inodes), old(v.bm), old(v.owner), v.disk, v.inodes, v.bm, v.owner)
    ensures var (check, dir, name) := MkdirCheck(old(TreeIn(v)), path, permitted);
            && (check != Done ==> st == check)
            && (check == Done ==> st == Done || st == ENOSPC)
            && (st == Done ==> && dir in old(TreeIn(v)).ents && NextInode(old(TreeIn(v)), made)
                               && TreeIn(v) == AddNode(old(TreeIn(v)), dir, name, made, Dir)
                               && Grow(old(v.bm), old(v.owner), v.bm, v.owner, made)
                               && Place(old(v.owner), old(v.bm), Slot(made, 0)) == (true, v.owner, v.bm)
                               && v.im == old(v.im)[made := true]
                               && ClearCount(v.bm) == ClearCount(old(v.bm)) - 1)
    ensures var (dirPath, name) := SplitFuse(path);
            MkdirAnswers(old(TreeIn(v)), Resolve(old(TreeIn(v)), dirPath, ROOT_INODE), name, permitted,
                         Full(old(TreeIn(v)), old(v.bm)), st)
    ensures st != Done ==>
              TreeIn(v) == old(TreeIn(v)) && v.bm == old(v.bm) && v.im == old(v.im) && v.owner == old(v.owner)
  {
    hide v.Meta, Own, FreeOwnNothing, TreeOk, Lookup, Exact, Dense, FdsOk, TreeOf, FilesOf, AddNode, Resolve,
         SplitFuse, Grow, ClearCount, Tidy, LastSlash, Place, MkdirAnswers, FoundAs, NextInode, CutPath, Live, Full;
    ChecksAnswer(TreeIn(v), v.link, v.depth, path, permitted, Full(TreeIn(v), v.bm));
    TidyReflexive(v.disk, v.inodes, v.bm, v.owner);
    made := 0;
    RootDepth(TreeIn(v), v.link, v.depth);
    var (dirPath, name) := SplitFuse(path);
    var parent := FindInodeByPath(v, dirPath, ROOT_INODE);
    if parent == -1 {
      return ENOENT, 0;
    }
    SoundSizes(v);
    TreeAt(v.disk, v.inodes, v.im, parent);
    var pinode: Inode, ok: bool;
    ok, pinode := ReadInode(v, parent);
    if !ok || pinode.kind != Dir {
      return ENOTDIR, 0;
    }
    if !permitted {
      return EACCES, 0;
    }
    var existing := DirFindEntry(v, parent, name);
    if existing >= 0 {
      return EEXIST, 0;
    }
    var r := MakeDir(v, parent, name);
    if r < 0 {
      return ENOSPC, 0;
    }
    return Done, r;
  }

  // ---- removing a directory ----

  lemma NoneHit(es: seq<Entry>, q: Query)
    ensures FirstHit(es, q, 0) == |es| <==> forall j :: 0 <= j < |es| ==> !Hits(q, es[j])
  {
  }

  /** The emptiness scan of `fuse_rmdir` is right: nothing but dots means no slot is used. */
  lemma EmptyScan(tr: Tree, link: Links, depth: Depths, d: nat)
    requires TreeOk(tr, link, depth) && d in tr.ents
    ensures FirstHit(tr.ents[d], NotDots, 0) == |tr.ents[d]| <==> EmptyDir(tr.ents[d])
  {
    hide Unique, DirsOk, KindsOk, LinksOk, DepthOk, FirstHit;
    var es := tr.ents[d];
    DirFacts(tr, link, depth, d);
    NoneHit(es, NotDots);
    forall j | 2 <= j < |es|
      ensures Hits(NotDots, es[j]) <==> es[j] != FREE
    {
      assert SlotOk(link, d, j, es[j]);
    }
  }

  lemma NoFdInDir(fds: seq<Fd>, t: Table, im: seq<bool>, d: nat)
    requires FdsOk(fds, t, im) && d < |t| && t[d].kind == Dir
    ensures forall f :: 0 <= f < |fds| && fds[f].used ==> fds[f].ino != d
  {
  }

  /** When each answer of `fuse_rmdir` is given: `i` is what the path stands for. */
  ghost predicate RmdirAnswers(tr: Tree, i: Option<nat>, permitted: bool, st: Status) {
    && (st == ENOENT <==> i == None)
    && (st == ENOTDIR <==> i.Some? && IsFile(tr, i.value))
    && (st == ENOTEMPTY <==> i.Some? && IsDir(tr, i.value) && !OnlyDots(tr, i.value))
    && (st == EACCES <==> i.Some? && IsDir(tr, i.value) && OnlyDots(tr, i.value) && !permitted)
    && (st == Done <==> i.Some? && IsDir(tr, i.value) && OnlyDots(tr, i.value) && permitted)
  }

  /** What `fuse_rmdir` answers. */
  ghost function RmdirCheck(tr: Tree, path: Str, permitted: bool): Status {
    match Resolve(tr, path, ROOT_INODE)
    case None => ENOENT
    case Some(i) =>
      if i !in tr.ents then ENOTDIR
      else if !EmptyDir(tr.ents[i]) then ENOTEMPTY
      else if !permitted then EACCES
      else Done
  }

  /** A path as the kernel hands it to a FUSE file system: absolute, resolved, and short enough. */
  ghost predicate KernelPath(path: Str) {
    && |path| < MAX_CMD_LEN && path != [] && path[0] == SLASH && LastSlash(path) >= 0
    && BaseName(path) != [] && BaseName(path) != DOT && BaseName(path) != DOTDOT
  }

  /** The scan for an entry other than "." and "..". */
  method HoldsMore(v: Volume, inode: Inode, ghost ino: nat) returns (used: bool)
    requires Sound(v) && ino < |v.inodes| && inode == v.inodes[ino]
    modifies v`disk, v`blockBits, v`bm, v`sb, v`gd, v`owner
    ensures v.Meta() && v.disk == old(v.disk) && v.bm == old(v.bm) && v.owner == old(v.owner)
    ensures used <==> FirstHit(Ents(v.disk, v.inodes, ino), NotDots, 0) != |Ents(v.disk, v.inodes, ino)|
  {
    hide v.Meta, Own, FreeOwnNothing, FirstHit, BlocksFrom, EntryAt, Img, At;
    var phys, lb, slot, b := ScanDir(v, inode, ino, NotDots);
    return phys >= 0;
  }

  method FuseRmdir(v: Volume, path: Str, permitted: bool) returns (st: Status)
    requires Fs(v) && KernelPath(path)
    modifies v
    ensures Fs(v) && FilesIn(v) == old(FilesIn(v))
    ensures Tidy(old(v.disk), old(v.inodes), old(v.bm), old(v.owner), v.disk, v.inodes, v.bm, v.owner)
    ensures st == RmdirCheck(old(TreeIn(v)), path, permitted)
    ensures RmdirAnswers(old(TreeIn(v)), Resolve(old(TreeIn(v)), path, ROOT_INODE), permitted, st)
    ensures st != Done ==>
              TreeIn(v) == old(TreeIn(v)) && v.bm == old(v.bm) && v.im == old(v.im) && v.owner == old(v.owner)
    ensures st == Done ==> var i := Resolve(old(TreeIn(v)), path, ROOT_INODE).value;
                           var parent := Resolve(old(TreeIn(v)), DirName(path), ROOT_INODE);
                           && parent.Some? && parent.value in old(TreeIn(v)).ents && i != ROOT_INODE
                           && TreeIn(v) == RemoveNode(old(TreeIn(v)), parent.value, BaseName(path), i)
                           && i < TOTAL_INODES == |old(v.im)| && v.im == old(v.im)[i := false]
                           && ClearedBy(old(v.bm), v.bm, OwnedBy(old(v.owner), i))
                           && v.owner == WithoutIno(old(v.owner), i)
  {
    hide v.Meta, Own, FreeOwnNothing, TreeOk, Lookup, Exact, Dense, FdsOk, TreeOf, FilesOf, RemoveNode, Resolve,
         ClearedBy, OwnedBy, WithoutIno, EmptyDir, Ents, Hits, FirstHit, LastSlash, BlocksFrom, Flat, EntryAt, Tidy,
         RmdirAnswers, FoundAs;
    RmdirAnswered(TreeIn(v), v.link, v.depth, path, permitted);
    TidyReflexive(v.disk, v.inodes, v.bm, v.owner);
    RootDepth(TreeIn(v), v.link, v.depth);
    SoundSizes(v);
    ResolveLast(TreeIn(v), path, ROOT_INODE);
    var ino := FindInodeByPath(v, path, ROOT_INODE);
    if ino == -1 {
      return ENOENT;
    }
    TreeAt(v.disk, v.inodes, v.im, ino);
    var inode: Inode, ok: bool;
    ok, inode := ReadInode(v, ino);
    if inode.kind != Dir {
      return ENOTDIR;
    }
    EmptyScan(TreeIn(v), v.link, v.depth, ino);
    var used := HoldsMore(v, inode, ino);
    if used {
      return ENOTEMPTY;
    }
    var k := LastSlash(path);
    var delName: Str := path[k + 1..];
    var parentDir := CutPath(path);
    if k == 0 {
      parentDir := [SLASH];
    } else {
      parentDir := parentDir[..k];
    }
    var parent := FindInodeByPath(v, parentDir, ROOT_INODE);
    if parent == -1 {
      assert false;
    }
    if !permitted {
      return EACCES;
    }
    NoFdInDir(v.fds[..], v.inodes, v.im, ino);
    TreeAt(v.disk, v.inodes, v.im, parent);
    FoundInParent(TreeIn(v), v.link, v.depth, parent, delName, ino);
    ok := RemoveNodeAt(v, parent, delName, ino, inode);
    FilesWithout(old(v.disk), old(v.inodes), old(v.im), ino);
    return Done;
  }

  lemma RmdirAnswered(tr: Tree, link: Links, depth: Depths, path: Str, permitted: bool)
    requires TreeOk(tr, link, depth)
    ensures RmdirAnswers(tr, Resolve(tr, path, ROOT_INODE), permitted, RmdirCheck(tr, path, permitted))
  {
    hide TreeOk, WalkAll, Tokens, OnlyDots, EmptyDir;
    RootDepth(tr, link, depth);
    WalkStays(tr, link, depth, ROOT_INODE, Tokens(CutPath(path)));
    var i := Resolve(tr, path, ROOT_INODE);
    if i.Some? {
      DirHasEnts(tr, link, depth, i.value);
      if i.value in tr.ents {
        EmptyMeans(tr, link, depth, i.value);
      }
    }
  }

  lemma FoundInParent(tr: Tree, link: Links, depth: Depths, parent: nat, name: Str, i: nat)
    requires TreeOk(tr, link, depth) && Walk(tr, parent, name) == Some(i) && name != DOT && name != DOTDOT
    ensures parent in tr.ents && Lookup(tr.ents[parent], name) == Some(i) && i != ROOT_INODE
  {
    hide TreeOk, Lookup;
    NamedLink(tr, link, depth, parent, name, i);
  }

  lemma FilesWithout(d: Disk, t: Table, im: seq<bool>, i: nat)
    requires i < |t| && t[i].kind == Dir
    ensures FilesOf(d, t, im) - {i} == FilesOf(d, t, im)
  {
    hide Content;
  }

  /** Why the path must not end in a dot: `rmdir("…/d/.")` would take "." out of the empty directory d
      itself and release d, whose parent then still lists it. No choice of links makes that a tree. */
  lemma RemovingADotBreaksTheTree(tr: Tree, link: Links, depth: Depths, d: nat, link': Links, depth': Depths)
    requires TreeOk(tr, link, depth) && d in tr.ents && d != ROOT_INODE
    ensures !TreeOk(RemoveNode(tr, d, DOT, d), link', depth')
  {
    hide Unique, DepthOk, Removed;
    var tr' := RemoveNode(tr, d, DOT, d);
    DirFacts(tr, link, depth, d);
    OwnParent(tr, link, depth, d);
    LinkFacts(tr, link, depth, d);
    var p, j := link[d].0, link[d].1;
    assert p in tr'.ents && tr'.ents[p] == tr.ents[p] && tr'.ents[p][j].ino == d && d >= 1;
    if TreeOk(tr', link', depth') {
      DirFacts(tr', link', depth', p);
    }
  }
}
