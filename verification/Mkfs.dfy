/** mkfs.c: formatting a volume establishes every invariant. */
module Mkfs {
  import opened Bytes
  import opened Layout
  import opened BlockMap
  import opened InodeTable
  import opened Volumes
  import opened Bitmap
  import opened InodeMap
  import opened Contents
  import opened Invariants
  import opened Entries
  import opened Namespace
  import opened Trees
  import opened Listing
  import opened Paths
  import opened Filesystem
  import opened FileOps
  import opened Directories

  const HOME: Str := [104, 111, 109, 101]
  // "root", "oscd", "pyc", "guest"
  const USERS: seq<Str> := [[114, 111, 111, 116], [111, 115, 99, 100], [112, 121, 99], [103, 117, 101, 115, 116]]

  /** Bits 0 .. k-1 set, the rest clear. */
  function FirstBits(n: nat, k: nat): seq<bool> {
    seq(n, (i: nat) => i < k)
  }

  lemma {:induction false} FirstBitsClear(n: nat, k: nat)
    requires k <= n
    ensures ClearCount(FirstBits(n, k)) == n - k
  {
    if n == k {
      ClearCountZero(FirstBits(n, k));
    } else {
      assert FirstBits(n, k)[..n - 1] == FirstBits(n - 1, k);
      FirstBitsClear(n - 1, k);
    }
  }

  /** The initial bitmap buffers: bytes 0xFF, 0x03 for the ten metadata blocks, bit 0 for inode 0. */
  lemma InitialBlockBits(buf: seq<bv8>)
    requires |buf| == BLOCK_SIZE && buf[0] == 0xFF && buf[1] == 0x03
    requires forall i :: 2 <= i < |buf| ==> buf[i] == 0
    ensures Reads(buf, FirstBits(TOTAL_BLOCKS, FIRST_DATA_BLOCK))
  {
    forall i: nat | i < TOTAL_BLOCKS
      ensures Bit(buf, i) == (i < FIRST_DATA_BLOCK)
    {
      MaskTable(i);
      assert i / 8 == 0 || i / 8 == 1 || i / 8 >= 2;
    }
  }

  lemma InitialInodeBits(buf: seq<bv8>)
    requires |buf| == BLOCK_SIZE && buf[0] == 0x01
    requires forall i :: 1 <= i < |buf| ==> buf[i] == 0
    ensures Reads(buf, FirstBits(TOTAL_INODES, 1))
  {
    forall i: nat | i < TOTAL_INODES
      ensures Bit(buf, i) == (i < 1)
    {
      MaskTable(i);
    }
  }

  lemma {:induction false} NothingNamed(d: Disk, t: Table, l: Loc)
    requires forall i :: 0 <= i < |t| ==> forall s :: 0 <= s < ROOT_SLOTS ==> RootPtr(t[i], s) == 0
    ensures At(d, t, l) == 0
  {
    if l.Sub? {
      NothingNamed(d, t, l.parent);
    }
  }

  lemma EmptyOwn(d: Disk, t: Table, bm: seq<bool>)
    requires |d| == |bm| == TOTAL_BLOCKS && |t| == TOTAL_INODES
    requires forall i :: 0 <= i < |t| ==> t[i] == FreshInode(File)
    ensures Own(d, t, bm, map[])
    ensures forall i: nat, k: nat :: Img(d, t, i, k) == None
  {
    hide At, ValidLoc, RootPtr, FreshInode;
    FreshRoots(File);
    forall l
      ensures At(d, t, l) == 0
    {
      NothingNamed(d, t, l);
    }
  }

  /** The counters written at first count the clear bits written at first. */
  lemma InitialAgree(blockBits: seq<bv8>, inodeBits: seq<bv8>)
    requires |blockBits| == |inodeBits| == BLOCK_SIZE && blockBits[0] == 0xFF && blockBits[1] == 0x03
    requires inodeBits[0] == 0x01
    requires (forall i :: 2 <= i < BLOCK_SIZE ==> blockBits[i] == 0)
    requires forall i :: 1 <= i < BLOCK_SIZE ==> inodeBits[i] == 0
    ensures Agree(blockBits, inodeBits, FirstBits(TOTAL_BLOCKS, FIRST_DATA_BLOCK), FirstBits(TOTAL_INODES, 1),
                  SuperBlock(MAGIC, TOTAL_BLOCKS, TOTAL_BLOCKS - FIRST_DATA_BLOCK, TOTAL_INODES, TOTAL_INODES,
                             ROOT_INODE, BLOCK_SIZE),
                  GroupDesc(2, 3, 4, TOTAL_BLOCKS - FIRST_DATA_BLOCK, TOTAL_INODES))
  {
    hide Bit, Mask, ClearCount, Reads, FirstBits;
    InitialBlockBits(blockBits);
    InitialInodeBits(inodeBits);
    FirstBitsAre(TOTAL_BLOCKS, FIRST_DATA_BLOCK);
    FirstBitsAre(TOTAL_INODES, 1);
    FirstBitsClear(TOTAL_BLOCKS, FIRST_DATA_BLOCK);
    FirstBitsClear(TOTAL_INODES, 1);
  }

  /** super_init, block_bitmap_init, inode_bitmap_init and the group descriptor, on a zeroed disk. */
  method InitMetadata(v: Volume)
    modifies v
    ensures Sound(v) && Exact(v.bm, v.owner) && Dense(v.disk, v.inodes, 0)
    ensures v.bm == FirstBits(TOTAL_BLOCKS, FIRST_DATA_BLOCK) && v.im == FirstBits(TOTAL_INODES, 1)
    ensures v.gd.freeBlocksCount == TOTAL_BLOCKS - FIRST_DATA_BLOCK && v.gd.freeInodesCount == TOTAL_INODES
    ensures forall i: nat, k: nat :: Img(v.disk, v.inodes, i, k) == None
    ensures forall i :: 0 <= i < TOTAL_INODES ==> v.inodes[i] == FreshInode(File)
  {
    hide Mask, Bit, At, ValidLoc, Img, ClearCount, TableReads, FreshInode, Agree;
    v.disk := seq(TOTAL_BLOCKS, _ => ZERO);
    v.table := seq(TABLE_BLOCKS, _ => ZERO);
    v.inodes := seq(TOTAL_INODES, _ => FreshInode(File));
    ZeroTable();
    FreshSize(File);
    v.sb := SuperBlock(MAGIC, TOTAL_BLOCKS, TOTAL_BLOCKS - FIRST_DATA_BLOCK, TOTAL_INODES, TOTAL_INODES, ROOT_INODE,
                       BLOCK_SIZE);
    var buf: seq<bv8> := seq(BLOCK_SIZE, _ => 0);
    buf := buf[0 := 0xFF];
    buf := buf[1 := 0x03];
    v.blockBits := buf;
    buf := seq(BLOCK_SIZE, _ => 0);
    buf := buf[0 := 0x01];
    v.inodeBits := buf;
    v.gd := GroupDesc(2, 3, 4, TOTAL_BLOCKS - FIRST_DATA_BLOCK, TOTAL_INODES);
    v.bm := FirstBits(TOTAL_BLOCKS, FIRST_DATA_BLOCK);
    v.im := FirstBits(TOTAL_INODES, 1);
    v.owner := map[];
    InitialAgree(v.blockBits, v.inodeBits);
    EmptyOwn(v.disk, v.inodes, v.bm);
  }

  // ---- the root directory ----

  lemma RootTree(d: Disk, t: Table, im: seq<bool>)
    requires |t| == |im| == TOTAL_INODES && im == FirstBits(TOTAL_INODES, 1)[1 := true]
    requires t[1].kind == Dir && Ents(d, t, 1) == NewDir(1, 1)
    ensures TreeOf(d, t, im) == Tree(map[1 := Dir], map[1 := NewDir(1, 1)])
    ensures FilesOf(d, t, im) == map[]
  {
    hide Ents, Content, NewDir;
  }

  lemma RootTreeOk()
    ensures var tr := Tree(map[1 := Dir], map[1 := NewDir(1, 1)]);
            TreeOk(tr, map[], map[1 := 0]) && CleanNames(tr)
    ensures Lookup(NewDir(1, 1), HOME) == None
  {
    hide DirOk, CleanName;
    RootDirOk();
    LookupMisses(NewDir(1, 1), HOME);
  }

  lemma RootDirOk()
    ensures DirOk(map[], 1, NewDir(1, 1))
    ensures forall j :: 2 <= j < |NewDir(1, 1)| ==> NewDir(1, 1)[j] == FREE
    ensures NewDir(1, 1)[0].name == DOT
  {
  }

  /** A volume whose metadata has just been written. */
  ghost predicate Blank(v: Volume)
    reads v, v.fds
  {
    && Sound(v) && Exact(v.bm, v.owner) && Dense(v.disk, v.inodes, 0) && FdsOk(v.fds[..], [], [])
    && v.bm == FirstBits(TOTAL_BLOCKS, FIRST_DATA_BLOCK) && v.im == FirstBits(TOTAL_INODES, 1)
    && v.gd.freeBlocksCount == TOTAL_BLOCKS - FIRST_DATA_BLOCK && v.gd.freeInodesCount == TOTAL_INODES
  }

  /** Allocates inode 1 and makes it the root directory. */
  method MakeRoot(v: Volume) returns (ok: bool)
    requires Blank(v)
    modifies v
    ensures ok && Sound(v) && Exact(v.bm, v.owner) && Dense(v.disk, v.inodes, 0)
    ensures |v.inodes| == TOTAL_INODES && v.inodes[1].kind == Dir && Ents(v.disk, v.inodes, 1) == NewDir(1, 1)
    ensures v.im == FirstBits(TOTAL_INODES, 1)[1 := true]
    ensures v.gd.freeBlocksCount == TOTAL_BLOCKS - FIRST_DATA_BLOCK - 1 && v.gd.freeInodesCount == TOTAL_INODES - 1
  {
    hide v.Meta, Own, FreeOwnNothing, Ents, Exact, Dense, OthersSame, Img, NewDir, FirstBits, FdsOk,
         ClearCount, FreshInode, SameImg, Grow, KeepsDense, FreeKept, Agree;
    SoundSizes(v);
    GroupCounts(v);
    FirstBitsAre(TOTAL_BLOCKS, FIRST_DATA_BLOCK);
    FirstBitsAre(TOTAL_INODES, 1);
    assert !v.im[1] && !v.bm[FIRST_DATA_BLOCK];
    var root := AllocInode(v);
    if root != 1 {
      return false;
    }
    InodeInit(v, 1, Dir);
    FreshInodeStep(v.disk, old(v.inodes), v.bm, v.owner, old(v.im), 1, Dir);
    FreshImages(v.disk, v.inodes, v.bm, v.owner, old(v.im), 1);
    FreshSize(Dir);
    ghost var t1 := v.inodes;
    KeepsAt(v.disk, old(v.inodes), v.disk, t1, 0);
    var blk := FillDir(v, 1, 1);
    KeepsAt(old(v.disk), t1, v.disk, v.inodes, 0);
    if blk < 0 {
      return false;
    }
    SoundSizes(v);
    ClearCountUpdate(old(v.bm), blk, true);
    ClearCountUpdate(old(v.im), 1, true);
    GroupCounts(v);
    return true;
  }

  /** Every allocation still succeeds while the counters are positive. */
  lemma RoomLeft(v: Volume)
    requires Sound(v) && v.gd.freeBlocksCount > 0 && v.gd.freeInodesCount > 1
    ensures |v.bm| == TOTAL_BLOCKS && !Full(TreeIn(v), v.bm)
  {
    hide v.Meta, Own, FreeOwnNothing, TreeOf, ClearCount;
    SoundSizes(v);
    MetaSizes(v);
    GroupCounts(v);
    ClearCountZero(v.bm);
    ClearCountZero(v.im);
    var j :| 0 <= j < TOTAL_INODES && !v.im[j];
    TreeAt(v.disk, v.inodes, v.im, j);
    assert j !in TreeIn(v).kind;
  }

  /** The directories that formatting makes: /home, nothing else in the root, and the home directories. */
  ghost predicate HomesMade(tr: Tree, home: nat, k: nat) {
    && ROOT_INODE in tr.ents && home in tr.ents && home != ROOT_INODE
    && Lookup(tr.ents[ROOT_INODE], HOME) == Some(home)
    && (forall n: Str :: Lookup(tr.ents[ROOT_INODE], n).Some? ==> n in [DOT, DOTDOT, HOME])
    && forall j :: 0 <= j < |USERS| ==>
         if j < k then Lookup(tr.ents[home], USERS[j]).Some? && Lookup(tr.ents[home], USERS[j]).value in tr.ents
         else Lookup(tr.ents[home], USERS[j]) == None
  }

  lemma HomesStart(tr: Tree, i: nat)
    requires tr == Tree(map[1 := Dir], map[1 := NewDir(1, 1)]) && 2 <= i < TOTAL_INODES
    ensures TreeOk(tr, map[], map[1 := 0]) && CleanNames(tr) && Lookup(tr.ents[1], HOME) == None
    ensures HomesMade(AddNode(tr, 1, HOME, i, Dir), i, 0) && CleanNames(AddNode(tr, 1, HOME, i, Dir))
  {
    hide Lookup, FirstHit, TreeOk, NewDir, CleanNames, Unique;
    RootTreeOk();
    HomeIsClean();
    AddNodeLookup(tr, map[], map[1 := 0], 1, HOME, i, Dir, HOME);
    AddClean(tr, map[], map[1 := 0], 1, HOME, i, Dir);
    assert AddNode(tr, 1, HOME, i, Dir).ents[i] == NewDir(i, 1);
    forall n: Str
      ensures Lookup(AddNode(tr, 1, HOME, i, Dir).ents[1], n).Some? ==> n in [DOT, DOTDOT, HOME]
    {
      AddNodeLookup(tr, map[], map[1 := 0], 1, HOME, i, Dir, n);
      DotsOnly(n);
    }
    forall j | 0 <= j < |USERS|
      ensures Lookup(NewDir(i, 1), USERS[j]) == None
    {
      UserIsNew(j, i);
    }
  }

  lemma DotsOnly(n: Str)
    ensures Lookup(NewDir(1, 1), n).Some? ==> n in [DOT, DOTDOT]
  {
    hide Lookup;
    if n != DOT && n != DOTDOT {
      LookupNone(NewDir(1, 1), n);
    }
  }

  lemma HomeIsClean()
    ensures NameOk(HOME) && CleanName(HOME)
  {
  }

  lemma UsersAreClean(j: nat)
    requires j < |USERS|
    ensures NameOk(USERS[j]) && CleanName(USERS[j]) && |USERS[j]| <= 27
    ensures forall x :: 0 <= x < |USERS| && x != j ==> USERS[x] != USERS[j]
  {
  }

  lemma UserIsNew(j: nat, i: nat)
    requires j < |USERS| && i != 0
    ensures Lookup(NewDir(i, 1), USERS[j]) == None
  {
    hide Lookup;
    var es := NewDir(i, 1);
    assert USERS[j] != DOT && USERS[j] != DOTDOT by {
      UsersAreClean(j);
    }
    UsersAreClean(j);
    LookupNone(es, USERS[j]);
  }

  lemma HomesStep(tr: Tree, link: Links, depth: Depths, home: nat, k: nat, i: nat)
    requires TreeOk(tr, link, depth) && CleanNames(tr) && HomesMade(tr, home, k) && k < |USERS|
    requires 2 <= i < TOTAL_INODES && i !in tr.kind
    ensures var tr' := AddNode(tr, home, USERS[k], i, Dir); CleanNames(tr') && HomesMade(tr', home, k + 1)
  {
    hide Lookup, FirstHit, TreeOk, AddNode, CleanNames, Unique, NameOk, CleanName;
    UsersAreClean(k);
    AddClean(tr, link, depth, home, USERS[k], i, Dir);
    forall j | 0 <= j < |USERS|
      ensures var tr' := AddNode(tr, home, USERS[k], i, Dir);
              && home in tr'.ents && Lookup(tr'.ents[home], USERS[j])
                                     == if j == k then Some(i) else Lookup(tr.ents[home], USERS[j])
    {
      AddNodeLookup(tr, link, depth, home, USERS[k], i, Dir, USERS[j]);
    }
    AddNodeLookup(tr, link, depth, home, USERS[k], i, Dir, HOME);
  }

  // ---- the names of a formatted volume, one by one ----

  /** Inodes 1 to n, all directories. */
  ghost function DirsTo(n: nat): map<nat, Kind> {
    if n == 0 then map[] else DirsTo(n - 1)[n := Dir]
  }

  lemma {:induction false} DirsToHas(n: nat, i: nat)
    ensures i in DirsTo(n) <==> 1 <= i <= n
  {
    if n != 0 {
      DirsToHas(n - 1, i);
    }
  }

  /** The next inode number after 1 to n. */
  lemma NextAfter(tr: Tree, n: nat, i: int)
    requires tr.kind == DirsTo(n) && NextInode(tr, i) && n >= 1
    ensures i == n + 1
  {
    DirsToHas(n, i);
    DirsToHas(n, n + 1);
  }

  lemma NextRange(tr: Tree, i: int)
    requires NextInode(tr, i)
    ensures 2 <= i < TOTAL_INODES && i !in tr.kind
  {
  }

  ghost function DotsOf(i: nat, parent: nat): set<(nat, Str, nat)> {
    {(i, DOT, i), (i, DOTDOT, parent)}
  }

  /** The names after the first `k` home directories have been made. */
  ghost function HomeEdges(k: nat): set<(nat, Str, nat)>
    requires k <= |USERS|
  {
    if k == 0 then DotsOf(1, 1) + {(1, HOME, 2)} + DotsOf(2, 1)
    else HomeEdges(k - 1) + {(2, USERS[k - 1], k + 2)} + DotsOf(k + 2, 2)
  }

  /** "/" is 1 and holds `home`, 2; that holds `a`, `b`, `c` and `d`, 3 to 6; and each lists its dots. */
  ghost function SixNames(home: Str, a: Str, b: Str, c: Str, d: Str): set<(nat, Str, nat)> {
    {(1, DOT, 1), (1, DOTDOT, 1), (1, home, 2),
     (2, DOT, 2), (2, DOTDOT, 1), (2, a, 3), (2, b, 4), (2, c, 5), (2, d, 6),
     (3, DOT, 3), (3, DOTDOT, 2), (4, DOT, 4), (4, DOTDOT, 2),
     (5, DOT, 5), (5, DOTDOT, 2), (6, DOT, 6), (6, DOTDOT, 2)}
  }

  /** The five names are "home", "root", "oscd", "pyc" and "guest". */
  ghost function FormattedEdges(): set<(nat, Str, nat)> {
    SixNames([104, 111, 109, 101], [114, 111, 111, 116], [111, 115, 99, 100], [112, 121, 99],
             [103, 117, 101, 115, 116])
  }

  lemma SixDirs()
    ensures DirsTo(6) == map[1 := Dir, 2 := Dir, 3 := Dir, 4 := Dir, 5 := Dir, 6 := Dir]
  {
  }

  lemma FormattedIs()
    ensures HomeEdges(4) == FormattedEdges()
  {
    hide HomeEdges, DotsOf, SixNames;
    HomeEdgesFirst();
    HomeEdgesNext(0);
    HomeEdgesNext(1);
    HomeEdgesNext(2);
    HomeEdgesNext(3);
    SameNames(HOME, USERS[0], USERS[1], USERS[2], USERS[3]);
  }

  lemma SameNames(h: Str, a: Str, b: Str, c: Str, d: Str)
    ensures DotsOf(1, 1) + {(1, h, 2)} + DotsOf(2, 1) + {(2, a, 3)} + DotsOf(3, 2) + {(2, b, 4)} + DotsOf(4, 2)
            + {(2, c, 5)} + DotsOf(5, 2) + {(2, d, 6)} + DotsOf(6, 2)
            == SixNames(h, a, b, c, d)
  {
  }

  lemma HomeEdgesFirst()
    ensures HomeEdges(0) == DotsOf(1, 1) + {(1, HOME, 2)} + DotsOf(2, 1)
  {
  }

  /** The tree of the root alone, and with /home. */
  lemma HomeIsNamed(tr: Tree, home: nat)
    requires tr == Tree(map[1 := Dir], map[1 := NewDir(1, 1)]) && NextInode(tr, home)
    ensures home == 2 && AddNode(tr, 1, HOME, home, Dir).kind == DirsTo(2)
    ensures Edges(AddNode(tr, 1, HOME, home, Dir)) == HomeEdges(0)
  {
    hide TreeOk, NewDir, CleanNames, Edges;
    RootTreeOk();
    NextAfter(tr, 1, home);
    RootEdges(tr);
    EdgesAfterAdd(tr, map[], map[1 := 0], 1, HOME, home, Dir);
    assert HomeEdges(0) == DotsOf(1, 1) + {(1, HOME, 2)} + DotsOf(2, 1);
  }

  lemma RootEdges(tr: Tree)
    requires tr == Tree(map[1 := Dir], map[1 := NewDir(1, 1)])
    ensures Edges(tr) == DotsOf(1, 1)
  {
    hide Edges;
    forall x: nat, n: Str, y: nat
      ensures (x, n, y) in Edges(tr) <==> (x, n, y) in DotsOf(1, 1)
    {
      EdgeHasSlot(tr, x, n, y);
      if y != 0 && x == 1 {
        NewSlots(1, 1, Entry(y, n));
      }
    }
    SameTriples(Edges(tr), DotsOf(1, 1));
  }

  lemma UserIsNamed(tr: Tree, link: Links, depth: Depths, k: nat, i: nat)
    requires TreeOk(tr, link, depth) && 2 in tr.ents && k < |USERS| && tr.kind == DirsTo(k + 2) && NextInode(tr, i)
    requires Edges(tr) == HomeEdges(k)
    ensures i == k + 3 && AddNode(tr, 2, USERS[k], i, Dir).kind == DirsTo(k + 3)
    ensures Edges(AddNode(tr, 2, USERS[k], i, Dir)) == HomeEdges(k + 1)
  {
    hide TreeOk, NewDir, Edges, NextInode, HomeEdges;
    NextAfter(tr, k + 2, i);
    NextRange(tr, i);
    EdgesAfterAdd(tr, link, depth, 2, USERS[k], i, Dir);
    HomeEdgesNext(k);
  }

  lemma HomeEdgesNext(k: nat)
    requires k < |USERS|
    ensures HomeEdges(k + 1) == HomeEdges(k) + {(2, USERS[k], k + 3)} + DotsOf(k + 3, 2)
  {
  }

  /** Formats a volume: a tree holding /home and the four home directories, no files, 2032 free blocks
      and a free-inode count of 122, with every invariant established. */
  method MkfsDisk(v: Volume) returns (r: int, ghost home: nat)
    requires FdsOk(v.fds[..], [], [])
    modifies v
    ensures r == 0 && Fs(v) && CleanNames(TreeIn(v)) && Dense(v.disk, v.inodes, 0) && Exact(v.bm, v.owner)
    ensures HomesMade(TreeIn(v), home, |USERS|) && FilesIn(v) == map[]
    ensures home == 2 && Edges(TreeIn(v)) == FormattedEdges()
    ensures TreeIn(v).kind == map[1 := Dir, 2 := Dir, 3 := Dir, 4 := Dir, 5 := Dir, 6 := Dir]
    ensures v.gd.freeBlocksCount == 2032 && v.gd.freeInodesCount == 122
  {
    hide v.Meta, Own, FreeOwnNothing, Exact, Dense, FdsOk, NewDir, TreeOf, FilesOf, TreeOk,
         CleanNames, ClearCount, Grow, HomesMade, AddNode, Ents, Lookup, FirstBits, Img, KeepsDense, FreeKept,
         NextInode, Edges, HomeEdges, FormattedEdges, DirsTo, Full;
    home := ROOT_INODE;
    InitMetadata(v);
    var ok := MakeRoot(v);
    if !ok {
      r := -1;
      return;
    }
    SoundSizes(v);
    RootTree(v.disk, v.inodes, v.im);
    RootTreeOk();
    NoFds(v.fds[..], v.inodes, v.im);
    v.link, v.depth := map[], map[1 := 0];
    LessDense(v.disk, v.inodes, FUSE_LIMIT);
    assert Fs(v);
    ghost var tr := TreeIn(v);
    RoomLeft(v);
    HomesStart(tr, 2);
    ghost var d0, t0 := v.disk, v.inodes;
    var homeIno := MakeDir(v, 1, HOME);
    KeepsAt(d0, t0, v.disk, v.inodes, 0);
    if homeIno < 0 {
      r := -1;
      return;
    }
    NextRange(tr, homeIno);
    HomesStart(tr, homeIno);
    HomeIsNamed(tr, homeIno);
    home := homeIno;
    for i := 0 to 4
      invariant Fs(v) && CleanNames(TreeIn(v)) && HomesMade(TreeIn(v), home, i) && FilesIn(v) == map[]
      invariant Dense(v.disk, v.inodes, 0) && Exact(v.bm, v.owner)
      invariant v.gd.freeBlocksCount == 2036 - i && v.gd.freeInodesCount == 126 - i
      invariant home == 2 && TreeIn(v).kind == DirsTo(i + 2) && Edges(TreeIn(v)) == HomeEdges(i)
    {
      RoomLeft(v);
      UsersAreClean(i);
      HomesNext(TreeIn(v), home, i);
      tr := TreeIn(v);
      ghost var link, depth := v.link, v.depth;
      ghost var d1, t1 := v.disk, v.inodes;
      var userIno := MakeDir(v, homeIno, USERS[i]);
      KeepsAt(d1, t1, v.disk, v.inodes, 0);
      if userIno < 0 {
        r := -1;
        return;
      }
      NextRange(tr, userIno);
      HomesStep(tr, link, depth, home, i, userIno);
      UserIsNamed(tr, link, depth, i, userIno);
    }
    FormattedIs();
    SixDirs();
    return 0, home;
  }

  lemma LessDense(d: Disk, t: Table, from: nat)
    requires Dense(d, t, 0)
    ensures Dense(d, t, from)
  {
    hide Img;
    forall i: nat, lb: nat | i < |t| && from <= lb * BLOCK_SIZE < t[i].size
      ensures Img(d, t, i, lb).Some?
    {
      assert Mapped(d, t, i, 0, t[i].size);
    }
  }

  lemma HomesNext(tr: Tree, home: nat, k: nat)
    requires HomesMade(tr, home, k) && k < |USERS|
    ensures home in tr.ents && Lookup(tr.ents[home], USERS[k]) == None
  {
    hide Lookup;
  }

  lemma FirstBitsAre(n: nat, k: nat)
    ensures |FirstBits(n, k)| == n && forall i :: 0 <= i < n ==> FirstBits(n, k)[i] == (i < k)
  {
  }

  lemma NoFds(fds: seq<Fd>, t: Table, im: seq<bool>)
    requires FdsOk(fds, [], [])
    ensures FdsOk(fds, t, im)
  {
  }
}
