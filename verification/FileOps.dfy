/** file.c: path resolution, descriptors, and the steps that create, open, close and delete files. */
module FileOps {
  import opened Bytes
  import opened Layout
  import opened BlockMap
  import opened Volumes
  import opened Bitmap
  import opened InodeMap
  import opened ReleaseBlocks
  import opened Contents
  import opened Invariants
  import opened Entries
  import opened Directory
  import opened Namespace
  import opened Trees
  import opened Paths
  import opened PathLaws
  import opened Filesystem

  lemma TreeAt(d: Disk, t: Table, im: seq<bool>, i: nat)
    requires |t| == |im| == TOTAL_INODES
    ensures var tr := TreeOf(d, t, im);
            && (i in tr.kind <==> Live(im, i)) && (i in tr.kind ==> tr.kind[i] == t[i].kind)
            && (i in tr.ents <==> Live(im, i) && t[i].kind == Dir) && (i in tr.ents ==> tr.ents[i] == Ents(d, t, i))
  {
    hide Ents;
  }

  /** find_inode_by_path: the inode a path stands for, -1 when some component is missing. */
  method FindInodeByPath(v: Volume, path: Str, start: nat) returns (r: int)
    requires Sound(v) && TreeOk(TreeIn(v), v.link, v.depth) && start in TreeIn(v).kind
    modifies v`disk, v`blockBits, v`bm, v`sb, v`gd, v`owner
    ensures v.Meta() && v.disk == old(v.disk) && v.bm == old(v.bm) && v.owner == old(v.owner)
    ensures r == match Resolve(TreeIn(v), path, start)
                 case None => -1
                 case Some(i) => i
    ensures r != -1 ==> 1 <= r < TOTAL_INODES && r in TreeIn(v).kind
    ensures FoundAs(TreeIn(v), v.link, path, start, r)
  {
    hide v.Meta, Own, FreeOwnNothing, TreeOk, TreeOf, Lookup, Ents, Tokens, Walk, WalkAll, Live, FoundAs;
    SoundSizes(v);
    ResolutionFinds(TreeIn(v), v.link, v.depth, path, start);
    RootDepth(TreeIn(v), v.link, v.depth);
    ghost var tr := TreeIn(v);
    var p := CutPath(path);
    var cur := start;
    if p != [] && p[0] == SLASH {
      cur := ROOT_INODE;
    }
    ghost var from := cur;
    var toks := Tokens(p);
    WalkEnd(tr, cur, toks);
    for k := 0 to |toks|
      modifies v`disk, v`blockBits, v`bm, v`sb, v`gd, v`owner
      invariant v.Meta() && v.disk == old(v.disk) && v.bm == old(v.bm) && v.owner == old(v.owner)
      invariant cur in tr.kind
      invariant WalkAll(tr, from, toks) == WalkAll(tr, cur, toks[k..])
    {
      TreeAt(v.disk, v.inodes, v.im, cur);
      KindRange(tr, v.link, v.depth, cur);
      WalkCases(tr, v.link, v.depth, cur, toks, k);
      if toks[k] == DOT {
      } else if toks[k] == DOTDOT {
        var parent := DirFindEntry(v, cur, DOTDOT);
        if parent < 0 {
          return -1;
        }
        cur := parent;
      } else {
        var found := DirFindEntry(v, cur, toks[k]);
        if found < 0 {
          return -1;
        }
        cur := found;
      }
    }
    TreeAt(v.disk, v.inodes, v.im, cur);
    WalkEnd(tr, cur, toks);
    KindRange(tr, v.link, v.depth, cur);
    return cur;
  }

  /** One token further along a path. */
  lemma WalkCases(tr: Tree, link: Links, depth: Depths, cur: nat, toks: seq<Str>, k: nat)
    requires TreeOk(tr, link, depth) && cur in tr.kind && k < |toks|
    ensures var next := if toks[k] == DOT then Some(cur)
                        else if cur in tr.ents then Lookup(tr.ents[cur], toks[k])
                        else None;
            && WalkAll(tr, cur, toks[k..]) == (if next == None then None else WalkAll(tr, next.value, toks[k + 1..]))
            && (next.Some? ==> next.value in tr.kind)
  {
    hide TreeOk, Lookup;
    assert toks[k..][0] == toks[k] && toks[k..][1..] == toks[k + 1..];
    WalkStays(tr, link, depth, cur, [toks[k]]);
    WalkOne(tr, cur, toks[k]);
  }

  lemma WalkEnd(tr: Tree, cur: nat, toks: seq<Str>)
    ensures WalkAll(tr, cur, toks[|toks|..]) == Some(cur)
    ensures toks[0..] == toks
  {
    hide Walk;
  }

  lemma KindRange(tr: Tree, link: Links, depth: Depths, i: nat)
    requires TreeOk(tr, link, depth) && i in tr.kind
    ensures 1 <= i < TOTAL_INODES
  {
    hide LinksOk, DirsOk, DepthOk;
  }

  // ---- creating an inode and naming it ----

  /** Initialising a free inode changes no image and keeps everything sound. */
  lemma FreshInodeStep(d: Disk, t: Table, bm: seq<bool>, owner: Owners, im: seq<bool>, i: nat, k: Kind)
    requires Own(d, t, bm, owner) && FreeOwnNothing(im, owner)
    requires i < TOTAL_INODES == |im| && !im[i]
    ensures var t' := t[i := FreshInode(k)];
            && Own(d, t', bm, owner) && FreeOwnNothing(im[i := true], owner) && KeepsDense(d, t, d, t')
            && (forall j: nat :: j < TOTAL_INODES ==> SameImg(d, t, d, t', j))
            && Content(d, t', i) == []
  {
    hide At, ValidLoc, Own, RootPtr, Img, LocIno, FreshInode, KeepsDense;
    OwnSizes(d, t, bm, owner);
    FreshRoots(k);
    FreshSize(k);
    FreeRoots(d, t, bm, owner, im, i, FreshInode(k));
    var t' := t[i := FreshInode(k)];
    SameRootsOwn(d, t, t', bm, owner);
    EmptyKeepsDense(d, t, d, t', i);
  }

  /** An inode of size 0 has no hole. */
  lemma EmptyKeepsDense(d: Disk, t: Table, d': Disk, t': Table, i: nat)
    requires |t| == |t'| == TOTAL_INODES && i < TOTAL_INODES && t'[i].size == 0
    requires OthersSame(d, t, d', t', i) && forall j :: 0 <= j < |t| && j != i ==> t'[j] == t[j]
    ensures KeepsDense(d, t, d', t')
  {
    hide SameImg, OthersSame, Img, KeepsDense;
    OneKeepsDense(d, t, d', t', i);
  }

  lemma FreshSize(k: Kind)
    ensures FreshInode(k).size == 0 && FreshInode(k).kind == k
  {
  }

  lemma FdsStay(fds: seq<Fd>, t: Table, t': Table, im: seq<bool>, im': seq<bool>, i: nat)
    requires FdsOk(fds, t, im) && |t'| == |t| && |im'| == |im| && i < |im| && i < |t|
    requires forall j :: 0 <= j < |t| && j != i ==> t'[j] == t[j]
    requires forall j :: 0 <= j < |im| && j != i ==> im'[j] == im[j]
    requires !im[i] || forall f :: 0 <= f < |fds| && fds[f].used ==> fds[f].ino != i
    ensures FdsOk(fds, t', im')
  {
  }

  lemma DotsFound(tr: Tree, link: Links, depth: Depths, d: nat, name: Str)
    requires TreeOk(tr, link, depth) && d in tr.ents && Lookup(tr.ents[d], name) == None
    ensures name != DOT && name != DOTDOT
  {
    hide Unique;
    DirFacts(tr, link, depth, d);
    DirFacts(tr, link, depth, Parent(link, d));
    NoHit(tr.ents[d], name);
    assert tr.ents[d][0] == Entry(d, DOT) && tr.ents[d][1] == Entry(Parent(link, d), DOTDOT);
  }

  /** The tree after a new inode has been initialised (state 1) and named in `dir` (state 2). */
  lemma NodeAdded(d0: Disk, t0: Table, im: seq<bool>, d1: Disk, t1: Table, d2: Disk, link: Links, depth: Depths,
                  dir: nat, name: Str, i: nat, k: Kind, beyond: seq<Entry>)
    requires |t0| == |t1| == |im| == TOTAL_INODES && 1 <= i < TOTAL_INODES && !im[i] && im[0]
    requires TreeOk(TreeOf(d0, t0, im), link, depth) && dir in TreeOf(d0, t0, im).ents
    requires OthersSame(d0, t0, d1, t1, i) && forall j :: 0 <= j < |t0| && j != i ==> t1[j] == t0[j]
    requires t1[i].kind == k && (if k == Dir then Ents(d1, t1, i) == NewDir(i, dir) else Content(d1, t1, i) == [])
    requires NameOk(name) && Lookup(TreeOf(d0, t0, im).ents[dir], name) == None
    requires OthersSame(d1, t1, d2, t1, dir)
    requires Ents(d2, t1, dir) == Added(Ents(d1, t1, dir), Entry(i, Cut(name)), beyond)
    ensures var tr := TreeOf(d0, t0, im);
            && i !in tr.kind && i >= 2 && dir in depth
            && TreeOf(d2, t1, im[i := true]) == AddNode(tr, dir, name, i, k)
            && TreeOk(AddNode(tr, dir, name, i, k), link[i := (dir, FreePos(tr.ents[dir]))], depth[i := depth[dir] + 1])
            && FilesOf(d2, t1, im[i := true])
               == if k == Dir then FilesOf(d0, t0, im) else FilesOf(d0, t0, im)[i := []]
  {
    hide Ents, Content, TreeOk, Lookup, SameImg, OthersSame, FilesOf, NewDir;
    var tr := TreeOf(d0, t0, im);
    RootDepth(tr, link, depth);
    InodeAppears(d0, t0, d1, t1, im, i);
    TreeAt(d0, t0, im, dir);
    TreeAt(d1, t1, im[i := true], dir);
    DirChanged(d1, t1, d2, im[i := true], dir);
    RoomForEntry(tr, link, depth, dir, i);
    NameCut(name);
    AddKeepsTree(tr, link, depth, dir, name, i, k);
    assert Ents(d1, t1, dir) == tr.ents[dir];
    assert TreeOf(d2, t1, im[i := true]).ents == AddNode(tr, dir, name, i, k).ents;
  }

  /** While inode i is free the entries of every directory have room for one more. */
  lemma RoomFor(d0: Disk, t0: Table, im: seq<bool>, d1: Disk, t1: Table, link: Links, depth: Depths, dir: nat, i: nat)
    requires |t0| == |t1| == |im| == TOTAL_INODES && 1 <= i < TOTAL_INODES && !im[i]
    requires TreeOk(TreeOf(d0, t0, im), link, depth) && dir in TreeOf(d0, t0, im).ents
    requires OthersSame(d0, t0, d1, t1, i)
    ensures i >= 2 && dir < TOTAL_INODES && im[dir] && t0[dir].kind == Dir && dir != i
    ensures FirstHit(Ents(d1, t1, dir), FreeSlot, 0) < |Ents(d1, t1, dir)|
  {
    hide Ents, TreeOk, SameImg;
    var tr := TreeOf(d0, t0, im);
    RootDepth(tr, link, depth);
    TreeAt(d0, t0, im, ROOT_INODE);
    TreeAt(d0, t0, im, dir);
    TreeAt(d0, t0, im, i);
    EntsSame(d0, t0, d1, t1, dir);
    RoomForEntry(tr, link, depth, dir, i);
  }

  lemma FreshOthers(d: Disk, t: Table, d': Disk, t': Table, i: nat)
    requires forall j: nat :: j < TOTAL_INODES ==> SameImg(d, t, d', t', j)
    ensures OthersSame(d, t, d', t', i)
  {
    hide SameImg;
  }

  /** The last step of every creation: gives the initialised inode `i` its name in `dir`. The ghost
      state 0 is the one before `i` was allocated. There is always a free slot, so the failure of
      `dir_add_entry`, after which the C code would roll back, does not happen. */
  method NameNode(v: Volume, dir: nat, name: Str, i: nat, ghost k: Kind, ghost d0: Disk, ghost t0: Table,
                  ghost im0: seq<bool>)
    returns (ok: bool)
    requires Mounted(v) && |t0| == |im0| == TOTAL_INODES && 1 <= i < TOTAL_INODES && !im0[i] && im0[0]
    requires v.im == im0[i := true]
    requires TreeOk(TreeOf(d0, t0, im0), v.link, v.depth) && dir in TreeOf(d0, t0, im0).ents
    requires |name| <= 27 && Lookup(TreeOf(d0, t0, im0).ents[dir], name) == None
    requires OthersSame(d0, t0, v.disk, v.inodes, i)
    requires |v.inodes| == TOTAL_INODES && forall j :: 0 <= j < |t0| && j != i ==> v.inodes[j] == t0[j]
    requires v.inodes[i].kind == k
    requires if k == Dir then Ents(v.disk, v.inodes, i) == NewDir(i, dir) else Content(v.disk, v.inodes, i) == []
    modifies v
    ensures ok && Fs(v) && i >= 2 && i !in TreeOf(d0, t0, im0).kind
    ensures TreeIn(v) == AddNode(TreeOf(d0, t0, im0), dir, name, i, k)
    ensures FilesIn(v) == if k == Dir then FilesOf(d0, t0, im0) else FilesOf(d0, t0, im0)[i := []]
    ensures v.bm == old(v.bm) && v.owner == old(v.owner) && v.im == old(v.im) && v.inodes == old(v.inodes)
    ensures KeepsDense(old(v.disk), old(v.inodes), v.disk, v.inodes) && FreeKept(old(v.disk), v.disk, v.bm)
  {
    hide v.Meta, Own, FreeOwnNothing, TreeOk, Lookup, Ents, Content, Exact, Dense, FdsOk, OthersSame, SameImg,
         TreeOf, FilesOf, AddNode, FirstHit, Live, Added, Beyond, Grow, NewDir, KeepsDense, FreeKept, NoGap;
    RoomFor(d0, t0, im0, v.disk, v.inodes, v.link, v.depth, dir, i);
    DotsFound(TreeOf(d0, t0, im0), v.link, v.depth, dir, name);
    ok := DirAddEntry(v, dir, name, i);
    KeepsAt(old(v.disk), old(v.inodes), v.disk, v.inodes, FUSE_LIMIT);
    NodeAdded(d0, t0, im0, old(v.disk), v.inodes, v.disk, v.link, v.depth, dir, name, i, k,
              Beyond(old(v.disk), v.inodes, dir));
    v.link := v.link[i := (dir, FreePos(TreeOf(d0, t0, im0).ents[dir]))];
    v.depth := v.depth[i := v.depth[dir] + 1];
  }

  /** Allocates an inode for a regular file and names it in `dir`; fails, changing nothing,
      exactly when every inode is taken. */
  method CreateNode(v: Volume, dir: nat, name: Str) returns (r: int)
    requires Fs(v) && dir in TreeIn(v).ents && |name| <= 27 && Lookup(TreeIn(v).ents[dir], name) == None
    modifies v
    ensures Fs(v)
    ensures Tidy(old(v.disk), old(v.inodes), old(v.bm), old(v.owner), v.disk, v.inodes, v.bm, v.owner)
    ensures r == -1 <==> forall i :: 1 <= i < TOTAL_INODES ==> i in old(TreeIn(v)).kind
    ensures r == -1 ==> && TreeIn(v) == old(TreeIn(v)) && FilesIn(v) == old(FilesIn(v))
                        && v.bm == old(v.bm) && v.im == old(v.im) && v.owner == old(v.owner)
    ensures r != -1 ==> && NextInode(old(TreeIn(v)), r)
                        && TreeIn(v) == AddNode(old(TreeIn(v)), dir, name, r, File)
                        && FilesIn(v) == old(FilesIn(v))[r := []]
                        && v.bm == old(v.bm) && v.im == old(v.im)[r := true] && v.owner == old(v.owner)
  {
    hide v.Meta, Own, FreeOwnNothing, TreeOk, Lookup, Ents, Content, Exact, Dense, FdsOk, OthersSame, SameImg,
         TreeOf, FilesOf, AddNode, FreshInode, Live, KeepsDense, FreeKept, NextInode;
    SoundSizes(v);
    MetaSizes(v);
    TidyReflexive(v.disk, v.inodes, v.bm, v.owner);
    AllTaken(v.disk, v.inodes, v.im);
    r := AllocInode(v);
    if r < 0 {
      return -1;
    }
    InodeInit(v, r, File);
    FreshInodeStep(old(v.disk), old(v.inodes), v.bm, v.owner, old(v.im), r, File);
    FreshSize(File);
    FreshOthers(old(v.disk), old(v.inodes), v.disk, v.inodes, r);
    KeepsAt(v.disk, old(v.inodes), v.disk, v.inodes, FUSE_LIMIT);
    FdsStay(v.fds[..], old(v.inodes), v.inodes, old(v.im), v.im, r);
    ghost var t1 := v.inodes;
    var ok := NameNode(v, dir, name, r, File, old(v.disk), old(v.inodes), old(v.im));
    NextIs(old(v.disk), old(v.inodes), old(v.im), r);
    KeepsDenseTransitive(old(v.disk), old(v.inodes), old(v.disk), t1, v.disk, v.inodes);
  }

  lemma DirInRange(d: Disk, t: Table, im: seq<bool>, dir: nat)
    requires |t| == |im| == TOTAL_INODES && dir in TreeOf(d, t, im).ents
    ensures 1 <= dir < TOTAL_INODES && im[dir] && t[dir].kind == Dir
  {
    hide Ents;
    TreeAt(d, t, im, dir);
  }

  lemma AllTaken(d: Disk, t: Table, im: seq<bool>)
    requires |t| == |im| == TOTAL_INODES && im[0]
    ensures (forall j :: 0 <= j < TOTAL_INODES ==> im[j])
            <==> forall i :: 1 <= i < TOTAL_INODES ==> i in TreeOf(d, t, im).kind
  {
    hide Ents;
    forall i | 1 <= i < TOTAL_INODES
      ensures im[i] <==> i in TreeOf(d, t, im).kind
    {
      TreeAt(d, t, im, i);
    }
  }

  /** The least clear inode bit is the next inode number. */
  lemma NextIs(d: Disk, t: Table, im: seq<bool>, r: nat)
    requires |t| == |im| == TOTAL_INODES && 2 <= r < TOTAL_INODES && !im[r] && forall j :: 0 <= j < r ==> im[j]
    ensures NextInode(TreeOf(d, t, im), r)
  {
    hide Ents;
    TreeAt(d, t, im, r);
    forall j: nat | 1 <= j < r
      ensures j in TreeOf(d, t, im).kind
    {
      TreeAt(d, t, im, j);
    }
  }

  // ---- removing a name and its inode ----

  lemma ReleasedImages(d: Disk, t: Table, t': Table, i: nat)
    requires i < TOTAL_INODES
    requires forall m :: At(d, t', m) == if LocIno(m) == i then 0 else At(d, t, m)
    ensures OthersSame(d, t, d, t', i)
  {
    hide At, LocOf, LocIno, Height, ValidLoc, LbOf, RootSlot;
    forall j: nat, k: nat | j < TOTAL_INODES && k < TRIPLE_END && j != i
      ensures Img(d, t', j, k) == Img(d, t, j, k)
    {
      LocOfIsValid(j, k);
    }
    OthersFromImages(d, t, d, t', i);
  }

  /** The tree after the name has been taken out of `dir` (state 1) and the inode released (state 2). */
  lemma NodeRemoved(d0: Disk, t0: Table, im: seq<bool>, d1: Disk, t2: Table, link: Links, depth: Depths,
                    dir: nat, name: Str, i: nat)
    requires |t0| == |t2| == |im| == TOTAL_INODES
    requires TreeOk(TreeOf(d0, t0, im), link, depth) && dir in TreeOf(d0, t0, im).ents
    requires Lookup(TreeOf(d0, t0, im).ents[dir], name) == Some(i) && name != DOT && name != DOTDOT
    requires i in TreeOf(d0, t0, im).ents ==> EmptyDir(TreeOf(d0, t0, im).ents[i])
    requires OthersSame(d0, t0, d1, t0, dir) && Ents(d1, t0, dir) == Removed(Ents(d0, t0, dir), name)
    requires OthersSame(d1, t0, d1, t2, i) && forall j :: 0 <= j < |t0| && j != i ==> t2[j] == t0[j]
    ensures var tr := TreeOf(d0, t0, im);
            && 1 <= i < TOTAL_INODES && im[i] && i != dir
            && TreeOf(d1, t2, im[i := false]) == RemoveNode(tr, dir, name, i)
            && TreeOk(RemoveNode(tr, dir, name, i), link - {i}, depth)
            && FilesOf(d1, t2, im[i := false]) == FilesOf(d0, t0, im) - {i}
  {
    hide Ents, Content, TreeOk, Lookup, SameImg, OthersSame, FilesOf, Removed, EmptyDir;
    var tr := TreeOf(d0, t0, im);
    NamedLink(tr, link, depth, dir, name, i);
    TreeAt(d0, t0, im, dir);
    TreeAt(d0, t0, im, i);
    DirChanged(d0, t0, d1, im, dir);
    InodeDisappears(d1, t0, d1, t2, im, i);
    RemoveKeepsTree(tr, link, depth, dir, name, i);
  }

  /** The blocks that are free in the end held what they hold all along. */
  lemma ReleasedKept(d: Disk, t: Table, bm: seq<bool>, owner: Owners, d': Disk, bm': seq<bool>, dir: nat, i: nat)
    requires Own(d, t, bm, owner) && KeptBut(d, d', owner, dir) && ClearedBy(bm, bm', OwnedBy(owner, i)) && i != dir
    ensures FreeKept(d, d', bm')
  {
    hide At, ValidLoc, LocIno;
  }

  lemma OwnerWithout(im: seq<bool>, owner: Owners, i: nat)
    requires FreeOwnNothing(im, owner) && i < |im|
    ensures FreeOwnNothing(im[i := false], WithoutIno(owner, i))
  {
    hide LocIno;
  }

  /** Takes `name` out of `dir` and releases the inode it named with all its blocks. */
  method RemoveNodeAt(v: Volume, dir: nat, name: Str, ino: nat, inode: Inode) returns (ok: bool)
    requires Fs(v) && dir in TreeIn(v).ents && Lookup(TreeIn(v).ents[dir], name) == Some(ino)
    requires name != DOT && name != DOTDOT && ino < |v.inodes| && inode == v.inodes[ino]
    requires ino in TreeIn(v).ents ==> EmptyDir(TreeIn(v).ents[ino])
    requires forall f :: 0 <= f < v.fds.Length && v.fds[f].used ==> v.fds[f].ino != ino
    modifies v
    ensures Fs(v) && ok
    ensures Tidy(old(v.disk), old(v.inodes), old(v.bm), old(v.owner), v.disk, v.inodes, v.bm, v.owner)
    ensures TreeIn(v) == RemoveNode(old(TreeIn(v)), dir, name, ino)
    ensures FilesIn(v) == old(FilesIn(v)) - {ino}
    ensures ino < TOTAL_INODES && v.im == old(v.im)[ino := false]
    ensures ClearedBy(old(v.bm), v.bm, OwnedBy(old(v.owner), ino))
    ensures v.owner == WithoutIno(old(v.owner), ino)
  {
    hide v.Meta, Own, FreeOwnNothing, TreeOk, Lookup, Ents, Exact, Dense, FdsOk, OthersSame, SameImg, At, TreeOf,
         FilesOf, RemoveNode, FreshInode, Live, Removed, WithoutIno, ClearedBy, OwnedBy, AllMarked, LocIno, EmptyDir,
         Mapped, KeepsDense, FreeKept, KeptBut;
    SoundSizes(v);
    DirInRange(v.disk, v.inodes, v.im, dir);
    TreeAt(v.disk, v.inodes, v.im, dir);
    ok := DirRemoveEntry(v, dir, name);
    ghost var d1 := v.disk;
    assert v.inodes[ino := inode] == v.inodes;
    FreshSize(inode.kind);
    var _ := InodeFreeBlocks(v, ino, inode);
    ReleasedImages(d1, old(v.inodes), v.inodes, ino);
    NodeRemoved(old(v.disk), old(v.inodes), old(v.im), d1, v.inodes, v.link, v.depth, dir, name, ino);
    EmptyKeepsDense(d1, old(v.inodes), d1, v.inodes, ino);
    KeepsDenseTransitive(old(v.disk), old(v.inodes), d1, old(v.inodes), d1, v.inodes);
    KeepsAt(old(v.disk), old(v.inodes), v.disk, v.inodes, FUSE_LIMIT);
    ReleasedKept(old(v.disk), old(v.inodes), old(v.bm), old(v.owner), v.disk, v.bm, dir, ino);
    OwnerWithout(v.im, old(v.owner), ino);
    var _ := FreeInode(v, ino);
    FdsStay(v.fds[..], old(v.inodes), v.inodes, old(v.im), v.im, ino);
    v.link := v.link - {ino};
  }

  // ---- the operations ----

  /** Where `oscdfs_create` would put a file: an existing directory and a name absent from it. */
  ghost function CreateTarget(tr: Tree, path: Str, cwd: nat): Option<(nat, Str)> {
    match SplitPath(path)
    case None => None
    case Some((dir, name)) =>
      match Resolve(tr, dir, cwd)
      case None => None
      case Some(d) => if d in tr.ents && Lookup(tr.ents[d], name) == None then Some((d, name)) else None
  }

  /** What `oscdfs_delete` would remove: a directory, a name in it, and the regular file of that name. */
  ghost function DeleteTarget(tr: Tree, path: Str, cwd: nat): Option<(nat, Str, nat)> {
    match SplitPath(path)
    case None => None
    case Some((dir, name)) =>
      match Resolve(tr, dir, cwd)
      case None => None
      case Some(d) =>
        if d in tr.ents then
          match Lookup(tr.ents[d], name)
          case None => None
          case Some(i) => if i in tr.kind && tr.kind[i] == File then Some((d, name, i)) else None
        else None
  }

  /** Creates an empty file; -1, with nothing changed, when the path, the permission or the supply of
      inodes does not allow it. */
  method OscdfsCreate(v: Volume, path: Str, cwd: nat, permitted: bool) returns (r: int)
    requires Fs(v) && cwd in TreeIn(v).kind
    modifies v
    ensures Fs(v)
    ensures Tidy(old(v.disk), old(v.inodes), old(v.bm), old(v.owner), v.disk, v.inodes, v.bm, v.owner)
    ensures var target := CreateTarget(old(TreeIn(v)), path, cwd);
            && (r == -1 <==> target == None || !permitted
                             || forall i :: 1 <= i < TOTAL_INODES ==> i in old(TreeIn(v)).kind)
            && (r != -1 ==> && NextInode(old(TreeIn(v)), r)
                            && TreeIn(v) == AddNode(old(TreeIn(v)), target.value.0, target.value.1, r, File)
                            && FilesIn(v) == old(FilesIn(v))[r := []]
                            && v.bm == old(v.bm) && v.im == old(v.im)[r := true] && v.owner == old(v.owner))
    ensures r == -1 ==> && TreeIn(v) == old(TreeIn(v)) && FilesIn(v) == old(FilesIn(v))
                        && v.bm == old(v.bm) && v.im == old(v.im) && v.owner == old(v.owner)
  {
    hide v.Meta, Own, FreeOwnNothing, TreeOk, Lookup, Exact, Dense, FdsOk, TreeOf, FilesOf, AddNode, Resolve, SplitPath,
         Tidy, NextInode;
    TidyReflexive(v.disk, v.inodes, v.bm, v.owner);
    var split := SplitPath(path);
    if split == None {
      return -1;
    }
    var (dirPath, name) := split.value;
    var parent := FindInodeByPath(v, dirPath, cwd);
    if parent == -1 {
      return -1;
    }
    SoundSizes(v);
    TreeAt(v.disk, v.inodes, v.im, parent);
    var inode: Inode, ok: bool;
    ok, inode := ReadInode(v, parent);
    if !ok || inode.kind != Dir {
      return -1;
    }
    if !permitted {
      return -1;
    }
    var existing := DirFindEntry(v, parent, name);
    if existing >= 0 {
      return -1;
    }
    r := CreateNode(v, parent, name);
  }

  /** Takes the least unused descriptor. */
  method AllocFd(v: Volume) returns (r: int)
    requires v.fds.Length == MAX_OPEN_FILES
    modifies v.fds
    ensures r == -1 ==> v.fds[..] == old(v.fds[..])
    ensures r == -1 <==> forall f :: 0 <= f < MAX_OPEN_FILES ==> old(v.fds[f]).used
    ensures r != -1 ==> && 0 <= r < MAX_OPEN_FILES && !old(v.fds[r]).used
                        && (forall f :: 0 <= f < r ==> old(v.fds[f]).used)
                        && v.fds[..] == old(v.fds[..])[r := Fd(true, 0, 0, ReadOnly)]
  {
    for i := 0 to MAX_OPEN_FILES
      invariant v.fds[..] == old(v.fds[..])
      invariant forall f :: 0 <= f < i ==> v.fds[f].used
    {
      if !v.fds[i].used {
        v.fds[i] := Fd(true, 0, 0, ReadOnly);
        return i;
      }
    }
    return -1;
  }

  method FreeFd(v: Volume, fd: int)
    requires v.fds.Length == MAX_OPEN_FILES
    modifies v.fds
    ensures v.fds[..] == if 0 <= fd < MAX_OPEN_FILES && old(v.fds[fd]).used
                         then old(v.fds[..])[fd := Fd(false, 0, 0, ReadOnly)] else old(v.fds[..])
  {
    if fd < 0 || fd >= MAX_OPEN_FILES {
      return;
    }
    if !v.fds[fd].used {
      return;
    }
    v.fds[fd] := Fd(false, 0, 0, ReadOnly);
  }

  /** The regular file that `oscdfs_open` would open. */
  ghost function OpenTarget(tr: Tree, path: Str, cwd: nat): Option<nat> {
    match Resolve(tr, path, cwd)
    case None => None
    case Some(i) => if i in tr.kind && tr.kind[i] == File then Some(i) else None
  }

  lemma FdOpened(fds: seq<Fd>, t: Table, im: seq<bool>, fd: nat, ino: nat, mode: Access)
    requires FdsOk(fds, t, im) && fd < |fds| && 0 < ino < |t| && ino < |im| && im[ino] && t[ino].kind == File
    ensures FdsOk(fds[fd := Fd(true, ino, 0, mode)], t, im)
    ensures FdsOk(fds[fd := Fd(false, 0, 0, ReadOnly)], t, im)
  {
  }

  lemma FdClosed(fds: seq<Fd>, t: Table, im: seq<bool>, fd: nat)
    requires FdsOk(fds, t, im) && fd < |fds|
    ensures FdsOk(fds[fd := Fd(false, 0, 0, ReadOnly)], t, im)
  {
  }

  lemma FdCount(fds: seq<Fd>, t: Table, im: seq<bool>)
    requires FdsOk(fds, t, im)
    ensures |fds| == MAX_OPEN_FILES
  {
  }

  /** Opens a regular file at offset 0 on the least unused descriptor. */
  method OscdfsOpen(v: Volume, path: Str, cwd: nat, mode: Access, permitted: bool) returns (fd: int)
    requires Fs(v) && cwd in TreeIn(v).kind
    modifies v`disk, v`blockBits, v`bm, v`sb, v`gd, v`owner, v.fds
    ensures Fs(v) && v.disk == old(v.disk) && v.bm == old(v.bm) && v.owner == old(v.owner)
    ensures TreeIn(v) == old(TreeIn(v)) && FilesIn(v) == old(FilesIn(v))
    ensures fd == -1 <==> OpenTarget(TreeIn(v), path, cwd) == None || !permitted
                          || forall f :: 0 <= f < MAX_OPEN_FILES ==> old(v.fds[..])[f].used
    ensures fd == -1 ==> v.fds[..] == old(v.fds[..])
    ensures fd != -1 ==> && 0 <= fd < MAX_OPEN_FILES && !old(v.fds[..])[fd].used
                         && (forall f :: 0 <= f < fd ==> old(v.fds[..])[f].used)
                         && v.fds[..] == old(v.fds[..])[fd := Fd(true, OpenTarget(TreeIn(v), path, cwd).value, 0, mode)]
  {
    hide v.Meta, Own, FreeOwnNothing, TreeOk, Exact, Dense, FdsOk, TreeOf, FilesOf, Resolve;
    ghost var fds0 := v.fds[..];
    FdCount(v.fds[..], v.inodes, v.im);
    var ino := FindInodeByPath(v, path, cwd);
    if ino == -1 {
      return -1;
    }
    SoundSizes(v);
    TreeAt(v.disk, v.inodes, v.im, ino);
    var inode: Inode, ok: bool;
    ok, inode := ReadInode(v, ino);
    if inode.kind == Dir {
      return -1;
    }
    if !permitted {
      return -1;
    }
    fd := AllocFd(v);
    if fd < 0 {
      return -1;
    }
    v.fds[fd] := v.fds[fd].(ino := ino);
    v.fds[fd] := v.fds[fd].(offset := 0);
    v.fds[fd] := v.fds[fd].(mode := mode);
    FdOpened(fds0, v.inodes, v.im, fd, ino, mode);
    assert v.fds[..] == fds0[fd := Fd(true, ino, 0, mode)];
  }

  method OscdfsClose(v: Volume, fd: int) returns (r: int)
    requires Fs(v)
    modifies v.fds
    ensures Fs(v)
    ensures r == if 0 <= fd < MAX_OPEN_FILES && old(v.fds[..])[fd].used then 0 else -1
    ensures v.fds[..] == if r == 0 then old(v.fds[..])[fd := Fd(false, 0, 0, ReadOnly)] else old(v.fds[..])
  {
    hide v.Meta, Own, FreeOwnNothing, TreeOk, Exact, Dense, FdsOk, TreeOf, FilesOf;
    FdCount(v.fds[..], v.inodes, v.im);
    if fd < 0 || fd >= MAX_OPEN_FILES || !v.fds[fd].used {
      return -1;
    }
    FdClosed(v.fds[..], v.inodes, v.im, fd);
    FreeFd(v, fd);
    return 0;
  }

  /** Some descriptor stands in inode `ino`. */
  ghost predicate IsOpen(fds: seq<Fd>, ino: nat) {
    exists f :: 0 <= f < |fds| && fds[f].used && fds[f].ino == ino
  }

  /** The scan of the descriptor table that guards a deletion. */
  method InUse(v: Volume, ino: nat) returns (r: bool)
    requires v.fds.Length == MAX_OPEN_FILES
    ensures r == IsOpen(v.fds[..], ino)
  {
    for i := 0 to MAX_OPEN_FILES
      invariant forall f :: 0 <= f < i ==> !(v.fds[..][f].used && v.fds[..][f].ino == ino)
    {
      if v.fds[i].used && v.fds[i].ino == ino {
        assert v.fds[..][i] == v.fds[i];
        return true;
      }
    }
    return false;
  }

  /** Deletes a regular file that no descriptor has open, with everything it owns. */
  method OscdfsDelete(v: Volume, path: Str, cwd: nat, permitted: bool) returns (r: int)
    requires Fs(v) && cwd in TreeIn(v).kind
    modifies v
    ensures Fs(v)
    ensures Tidy(old(v.disk), old(v.inodes), old(v.bm), old(v.owner), v.disk, v.inodes, v.bm, v.owner)
    ensures var target := DeleteTarget(old(TreeIn(v)), path, cwd);
            && r == (if target == None || !permitted || IsOpen(v.fds[..], target.value.2) then -1 else 0)
            && (r == 0 ==> var (dir, name, i) := target.value;
                           && dir in old(TreeIn(v)).ents
                           && TreeIn(v) == RemoveNode(old(TreeIn(v)), dir, name, i)
                           && FilesIn(v) == old(FilesIn(v)) - {i}
                           && i < TOTAL_INODES == |old(v.im)| && v.im == old(v.im)[i := false]
                           && ClearedBy(old(v.bm), v.bm, OwnedBy(old(v.owner), i))
                           && v.owner == WithoutIno(old(v.owner), i))
    ensures r == -1 ==> && TreeIn(v) == old(TreeIn(v)) && FilesIn(v) == old(FilesIn(v))
                        && v.bm == old(v.bm) && v.im == old(v.im) && v.owner == old(v.owner)
  {
    hide v.Meta, Own, FreeOwnNothing, TreeOk, Lookup, Exact, Dense, FdsOk, TreeOf, FilesOf, RemoveNode, Resolve,
         SplitPath,
         ClearedBy, OwnedBy, WithoutIno, EmptyDir, Tidy;
    TidyReflexive(v.disk, v.inodes, v.bm, v.owner);
    FdCount(v.fds[..], v.inodes, v.im);
    var split := SplitPath(path);
    if split == None {
      return -1;
    }
    var (dirPath, name) := split.value;
    var parent := FindInodeByPath(v, dirPath, cwd);
    if parent == -1 {
      return -1;
    }
    SoundSizes(v);
    TreeAt(v.disk, v.inodes, v.im, parent);
    var pinode: Inode, ok: bool;
    ok, pinode := ReadInode(v, parent);
    if !ok || pinode.kind != Dir {
      return -1;
    }
    if !permitted {
      return -1;
    }
    var fino := DirFindEntry(v, parent, name);
    if fino < 0 {
      return -1;
    }
    LookupInTree(TreeIn(v), v.link, v.depth, parent, name);
    TreeAt(v.disk, v.inodes, v.im, fino);
    var finode: Inode;
    ok, finode := ReadInode(v, fino);
    if !ok {
      return -1;
    }
    if finode.kind == Dir {
      return -1;
    }
    var inUse := InUse(v, fino);
    if inUse {
      return -1;
    }
    NotADot(v.disk, v.inodes, v.im, v.link, v.depth, parent, name, fino);
    var removed := RemoveNodeAt(v, parent, name, fino, finode);
    return 0;
  }

  lemma NotADot(d: Disk, t: Table, im: seq<bool>, link: Links, depth: Depths, dir: nat, name: Str, i: nat)
    requires |t| == |im| == TOTAL_INODES && TreeOk(TreeOf(d, t, im), link, depth) && dir in TreeOf(d, t, im).ents
    requires Lookup(TreeOf(d, t, im).ents[dir], name) == Some(i) && i !in TreeOf(d, t, im).ents
    ensures name != DOT && name != DOTDOT
  {
    hide TreeOf, TreeOk, Lookup, Unique, DirsOk;
    var tr := TreeOf(d, t, im);
    DirFacts(tr, link, depth, dir);
    DirFacts(tr, link, depth, Parent(link, dir));
    DirOkProper(link, dir, tr.ents[dir]);
    DirOkUnique(link, dir, tr.ents[dir]);
    LookupFinds(tr.ents[dir], 0);
    LookupFinds(tr.ents[dir], 1);
  }
}
