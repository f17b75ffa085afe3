/** The abstract file system that a volume stands for: a tree of names, the bytes of every file,
    and the open-file table. */
module Filesystem {
  import opened Bytes
  import opened Layout
  import opened BlockMap
  import opened Volumes
  import opened Contents
  import opened Invariants
  import opened Entries
  import opened Trees

  ghost predicate Live(im: seq<bool>, i: nat) {
    1 <= i < TOTAL_INODES && i < |im| && im[i]
  }

  ghost function TreeOf(d: Disk, t: Table, im: seq<bool>): Tree {
    Tree(map i: nat | i < TOTAL_INODES && Live(im, i) && i < |t| :: t[i].kind,
         map i: nat | i < TOTAL_INODES && Live(im, i) && i < |t| && t[i].kind == Dir :: Ents(d, t, i))
  }

  ghost function FilesOf(d: Disk, t: Table, im: seq<bool>): map<nat, seq<byte>> {
    map i: nat | i < TOTAL_INODES && Live(im, i) && i < |t| && t[i].kind == File :: Content(d, t, i)
  }

  /** The invariant of a mounted volume: sound, descriptors in range, names a tree. */
  ghost predicate Fs(v: Volume)
    reads v, v.fds
  {
    Mounted(v) && TreeOk(TreeOf(v.disk, v.inodes, v.im), v.link, v.depth)
  }

  ghost function TreeIn(v: Volume): Tree
    reads v
  {
    TreeOf(v.disk, v.inodes, v.im)
  }

  ghost function FilesIn(v: Volume): map<nat, seq<byte>>
    reads v
  {
    FilesOf(v.disk, v.inodes, v.im)
  }

  lemma FreeRoots(d: Disk, t: Table, bm: seq<bool>, owner: Owners, im: seq<bool>, i: nat, inode: Inode)
    requires Own(d, t, bm, owner) && FreeOwnNothing(im, owner) && i < TOTAL_INODES == |im| && !im[i]
    requires forall s :: 0 <= s < ROOT_SLOTS ==> RootPtr(inode, s) == 0
    ensures SameRoots(t, t[i := inode])
  {
    hide At, ValidLoc, RootPtr, LocIno;
    OwnSizes(d, t, bm, owner);
    forall s | 0 <= s < ROOT_SLOTS
      ensures RootPtr(t[i], s) == 0
    {
      AtSlot(d, t, i, s);
    }
  }

  lemma FreshRoots(kind: Kind)
    ensures forall s :: 0 <= s < ROOT_SLOTS ==> RootPtr(FreshInode(kind), s) == 0
  {
  }

  /** Nothing visible of inode i depends on the others. */
  lemma SameInode(d: Disk, t: Table, d': Disk, t': Table, i: nat)
    requires i < |t| == |t'| && t'[i].kind == t[i].kind && t'[i].size == t[i].size && SameImg(d, t, d', t', i)
    ensures Ents(d', t', i) == Ents(d, t, i) && Content(d', t', i) == Content(d, t, i)
  {
    hide Img, Ents, Content, SameImg;
    EntsSame(d, t, d', t', i);
    ContentSame(d, t, d', t', i);
  }

  /** A write to one regular file changes that file and nothing else. */
  lemma FileChanged(d: Disk, t: Table, d': Disk, t': Table, im: seq<bool>, ino: nat)
    requires |t| == |t'| == TOTAL_INODES == |im| && Live(im, ino)
    requires OthersSame(d, t, d', t', ino) && forall i :: 0 <= i < |t| && i != ino ==> t'[i] == t[i]
    requires t[ino].kind == t'[ino].kind == File
    ensures TreeOf(d', t', im) == TreeOf(d, t, im)
    ensures FilesOf(d', t', im) == FilesOf(d, t, im)[ino := Content(d', t', ino)]
  {
    hide Img, Ents, Content, SameImg;
    forall i: nat | i < TOTAL_INODES && i != ino
      ensures Ents(d', t', i) == Ents(d, t, i) && Content(d', t', i) == Content(d, t, i)
    {
      SameInode(d, t, d', t', i);
    }
  }

  /** Rewriting one directory's blocks changes that directory's entries and nothing else. */
  lemma DirChanged(d: Disk, t: Table, d': Disk, im: seq<bool>, dir: nat)
    requires |t| == TOTAL_INODES == |im| && Live(im, dir) && t[dir].kind == Dir
    requires OthersSame(d, t, d', t, dir)
    ensures TreeOf(d', t, im) == TreeOf(d, t, im).(ents := TreeOf(d, t, im).ents[dir := Ents(d', t, dir)])
    ensures FilesOf(d', t, im) == FilesOf(d, t, im)
  {
    hide Img, Ents, Content, SameImg;
    forall i: nat | i < TOTAL_INODES && i != dir
      ensures Ents(d', t, i) == Ents(d, t, i) && Content(d', t, i) == Content(d, t, i)
    {
      SameInode(d, t, d', t, i);
    }
  }

  /** Two states that look the same but for inode i. */
  ghost predicate SameBut(d: Disk, t: Table, im: seq<bool>, d': Disk, t': Table, im': seq<bool>, i: nat) {
    && |t| == |t'| == TOTAL_INODES == |im| == |im'|
    && forall j: nat :: j < TOTAL_INODES && j != i ==>
         && im'[j] == im[j] && t'[j].kind == t[j].kind
         && Ents(d', t', j) == Ents(d, t, j) && Content(d', t', j) == Content(d, t, j)
  }

  lemma OnlyOneDiffers(d: Disk, t: Table, d': Disk, t': Table, im: seq<bool>, i: nat, b: bool)
    requires |t| == |t'| == TOTAL_INODES == |im| && i < TOTAL_INODES
    requires OthersSame(d, t, d', t', i) && forall j :: 0 <= j < |t| && j != i ==> t'[j] == t[j]
    ensures SameBut(d, t, im, d', t', im[i := b], i)
  {
    hide Img, Ents, Content, SameImg;
    forall j: nat | j < TOTAL_INODES && j != i
      ensures Ents(d', t', j) == Ents(d, t, j) && Content(d', t', j) == Content(d, t, j)
    {
      SameInode(d, t, d', t', j);
    }
  }

  lemma KindsBut(d: Disk, t: Table, im: seq<bool>, d': Disk, t': Table, im': seq<bool>, i: nat)
    requires SameBut(d, t, im, d', t', im', i) && 1 <= i < TOTAL_INODES
    ensures !im[i] && im'[i] ==> TreeOf(d', t', im').kind == TreeOf(d, t, im).kind[i := t'[i].kind]
                                 && i !in TreeOf(d, t, im).kind
    ensures im[i] && !im'[i] ==> TreeOf(d', t', im').kind == TreeOf(d, t, im).kind - {i}
  {
    hide Ents, Content;
  }

  lemma EntsBut(d: Disk, t: Table, im: seq<bool>, d': Disk, t': Table, im': seq<bool>, i: nat)
    requires SameBut(d, t, im, d', t', im', i) && 1 <= i < TOTAL_INODES
    ensures var tr, tr' := TreeOf(d, t, im), TreeOf(d', t', im');
            && (!im[i] && im'[i] ==>
                  tr'.ents == (if t'[i].kind == Dir then tr.ents[i := Ents(d', t', i)] else tr.ents) && i !in tr.ents)
            && (im[i] && !im'[i] ==> tr'.ents == tr.ents - {i})
  {
    hide Ents, Content;
  }

  lemma FilesBut(d: Disk, t: Table, im: seq<bool>, d': Disk, t': Table, im': seq<bool>, i: nat)
    requires SameBut(d, t, im, d', t', im', i) && 1 <= i < TOTAL_INODES
    ensures var files, files' := FilesOf(d, t, im), FilesOf(d', t', im');
            && (!im[i] && im'[i] ==> files' == if t'[i].kind == Dir then files else files[i := Content(d', t', i)])
            && (im[i] && !im'[i] ==> files' == files - {i})
  {
    hide Ents, Content;
  }

  /** Allocating inode i and initialising it. */
  lemma InodeAppears(d: Disk, t: Table, d': Disk, t': Table, im: seq<bool>, i: nat)
    requires |t| == |t'| == TOTAL_INODES == |im| && 1 <= i < TOTAL_INODES && !im[i]
    requires OthersSame(d, t, d', t', i) && forall j :: 0 <= j < |t| && j != i ==> t'[j] == t[j]
    ensures var tr, tr' := TreeOf(d, t, im), TreeOf(d', t', im[i := true]);
            tr'.kind == tr.kind[i := t'[i].kind] && i !in tr.kind && i !in tr.ents
            && tr'.ents == if t'[i].kind == Dir then tr.ents[i := Ents(d', t', i)] else tr.ents
    ensures FilesOf(d', t', im[i := true])
            == if t'[i].kind == Dir then FilesOf(d, t, im) else FilesOf(d, t, im)[i := Content(d', t', i)]
  {
    hide TreeOf, FilesOf, SameBut, Ents, Content, OthersSame;
    OnlyOneDiffers(d, t, d', t', im, i, true);
    KindsBut(d, t, im, d', t', im[i := true], i);
    EntsBut(d, t, im, d', t', im[i := true], i);
    FilesBut(d, t, im, d', t', im[i := true], i);
  }

  /** Releasing inode i. */
  lemma InodeDisappears(d: Disk, t: Table, d': Disk, t': Table, im: seq<bool>, i: nat)
    requires |t| == |t'| == TOTAL_INODES == |im| && 1 <= i < TOTAL_INODES && im[i]
    requires OthersSame(d, t, d', t', i) && forall j :: 0 <= j < |t| && j != i ==> t'[j] == t[j]
    ensures var tr, tr' := TreeOf(d, t, im), TreeOf(d', t', im[i := false]);
            tr'.kind == tr.kind - {i} && tr'.ents == tr.ents - {i}
    ensures FilesOf(d', t', im[i := false]) == FilesOf(d, t, im) - {i}
  {
    hide TreeOf, FilesOf, SameBut, Ents, Content, OthersSame;
    OnlyOneDiffers(d, t, d', t', im, i, false);
    KindsBut(d, t, im, d', t', im[i := false], i);
    EntsBut(d, t, im, d', t', im[i := false], i);
    FilesBut(d, t, im, d', t', im[i := false], i);
  }
}
