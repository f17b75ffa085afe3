/** The whole name space: every allocated inode hangs in one place of one tree. */
module Trees {
  import opened Bytes
  import opened Layout
  import opened Entries
  import opened Directory
  import opened Namespace

  type Links = map<nat, (nat, nat)>
  type Depths = map<nat, nat>

  /** The allocated inodes with their kinds, and the entries of every directory. */
  datatype Tree = Tree(kind: map<nat, Kind>, ents: map<nat, seq<Entry>>)

  ghost function Parent(link: Links, d: nat): nat {
    if d == ROOT_INODE || d !in link then ROOT_INODE else link[d].0
  }

  ghost predicate NameOk(name: Str) {
    |name| <= 27 && name != DOT && name != DOTDOT
  }

  /** Slot j of directory d is free, or names an inode whose one link it is. */
  ghost predicate SlotOk(link: Links, d: nat, j: nat, e: Entry) {
    e == FREE || (e.ino in link && link[e.ino] == (d, j) && NameOk(e.name) && e.ino != 0)
  }

  /** One block of entries: ".", "..", and named inodes under distinct names. */
  ghost predicate DirOk(link: Links, d: nat, es: seq<Entry>) {
    && |es| == SLOTS
    && es[0] == Entry(d, DOT) && es[1] == Entry(Parent(link, d), DOTDOT)
    && (forall j :: 2 <= j < SLOTS ==> SlotOk(link, d, j, es[j]))
    && Unique(es)
  }

  ghost predicate KindsOk(tr: Tree) {
    && ROOT_INODE in tr.kind && tr.kind[ROOT_INODE] == Dir
    && (forall i :: i in tr.kind ==> 1 <= i < TOTAL_INODES)
    && (forall i :: i in tr.ents <==> i in tr.kind && tr.kind[i] == Dir)
  }

  /** Where inode `x` is linked. */
  ghost predicate LinkAt(ents: map<nat, seq<Entry>>, x: nat, at: (nat, nat)) {
    at.0 in ents && 2 <= at.1 < |ents[at.0]| && ents[at.0][at.1].ino == x
  }

  /** `link` gives for every inode but the root the one non-dot entry in the system that names it. */
  ghost predicate LinksOk(tr: Tree, link: Links) {
    && (forall i :: i in link <==> i in tr.kind && i != ROOT_INODE)
    && (forall i :: i in link ==> LinkAt(tr.ents, i, link[i]))
  }

  ghost predicate DirsOk(tr: Tree, link: Links) {
    forall d :: d in tr.ents ==> DirOk(link, d, tr.ents[d])
  }

  /** `depth` decreases along "..", so every directory is below the root. */
  ghost predicate DepthOk(dirs: set<nat>, link: Links, depth: Depths) {
    && ROOT_INODE in depth && depth[ROOT_INODE] == 0
    && (forall d :: d in dirs ==> d in depth && Parent(link, d) in depth)
    && (forall d :: d in dirs && d != ROOT_INODE ==> depth[d] == depth[Parent(link, d)] + 1)
  }

  ghost predicate TreeOk(tr: Tree, link: Links, depth: Depths) {
    KindsOk(tr) && LinksOk(tr, link) && DirsOk(tr, link) && DepthOk(tr.ents.Keys, link, depth)
  }

  /** The entries of a new directory. */
  ghost function NewDir(i: nat, parent: nat): seq<Entry> {
    [Entry(i, DOT), Entry(parent, DOTDOT)] + seq(SLOTS - 2, _ => FREE)
  }

  /** The least inode number that is not in use. */
  ghost predicate NextInode(tr: Tree, r: int) {
    2 <= r < TOTAL_INODES && r !in tr.kind && forall j :: 1 <= j < r ==> j in tr.kind
  }

  ghost function FreePos(es: seq<Entry>): nat {
    FirstHit(es, FreeSlot, 0)
  }

  /** Naming a new inode `i` in directory `d`. */
  ghost function AddNode(tr: Tree, d: nat, name: Str, i: nat, k: Kind): Tree
    requires d in tr.ents
  {
    var ents := tr.ents[d := Added(tr.ents[d], Entry(i, name), [])];
    Tree(tr.kind[i := k], if k == Dir then ents[i := NewDir(i, d)] else ents)
  }

  /** Taking the name of inode `i` out of directory `d`, and the inode with it. */
  ghost function RemoveNode(tr: Tree, d: nat, name: Str, i: nat): Tree
    requires d in tr.ents
  {
    Tree(tr.kind - {i}, tr.ents[d := Removed(tr.ents[d], name)] - {i})
  }

  lemma DirFacts(tr: Tree, link: Links, depth: Depths, d: nat)
    requires TreeOk(tr, link, depth) && d in tr.ents
    ensures DirOk(link, d, tr.ents[d]) && d in tr.kind && 1 <= d < TOTAL_INODES && tr.kind[d] == Dir
    ensures Parent(link, d) in tr.ents && d in depth && Parent(link, d) in depth
    ensures d != ROOT_INODE ==> d in link
  {
    hide DirOk;
  }

  lemma DirOkProper(link: Links, d: nat, es: seq<Entry>)
    requires DirOk(link, d, es) && d != 0 && Parent(link, d) != 0
    ensures Proper(es)
    ensures forall j :: 0 <= j < SLOTS ==> (es[j].ino == 0 <==> es[j] == FREE)
  {
    hide Unique;
    forall j | 0 <= j < SLOTS
      ensures |es[j].name| <= 27 && (es[j].ino == 0 <==> es[j] == FREE)
    {
      if j >= 2 {
        assert SlotOk(link, d, j, es[j]);
      }
    }
  }

  /** 127 usable inodes, each named once: while one of them is free, every directory has a free slot,
      so one block is always enough. */
  lemma RoomForEntry(tr: Tree, link: Links, depth: Depths, d: nat, i: nat)
    requires TreeOk(tr, link, depth) && d in tr.ents && 2 <= i < TOTAL_INODES && i !in tr.kind
    ensures 2 <= FreePos(tr.ents[d]) < SLOTS == |tr.ents[d]|
    ensures tr.ents[d][FreePos(tr.ents[d])] == FREE
  {
    hide Unique, DirsOk, DepthOk;
    DirFacts(tr, link, depth, d);
    DirFacts(tr, link, depth, Parent(link, d));
    DirOkProper(link, d, tr.ents[d]);
    FreeHit(tr.ents[d]);
    SomeSlotFree(tr, link, d, tr.ents[d], i);
  }

  lemma SomeSlotFree(tr: Tree, link: Links, d: nat, es: seq<Entry>, i: nat)
    requires KindsOk(tr) && LinksOk(tr, link) && DirOk(link, d, es)
    requires 2 <= i < TOTAL_INODES && i !in tr.kind
    ensures exists j :: 2 <= j < SLOTS && es[j] == FREE
  {
    hide Unique;
    var s: seq<nat> := seq(SLOTS - 2, (j: nat) requires j < SLOTS - 2 => es[j + 2].ino) + [i];
    if forall j :: 2 <= j < SLOTS ==> es[j] != FREE {
      forall a | 0 <= a < |s|
        ensures 2 <= s[a] < TOTAL_INODES && (a < SLOTS - 2 ==> s[a] in link && link[s[a]] == (d, a + 2))
      {
        if a < SLOTS - 2 {
          assert SlotOk(link, d, a + 2, es[a + 2]);
        }
      }
      Pigeonhole(s, 2, TOTAL_INODES);
    }
  }

  // ---- naming a new inode ----

  lemma StoredDirOk(link: Links, d: nat, es: seq<Entry>, j: nat, name: Str, i: nat)
    requires DirOk(link, d, es) && d != 0 && Parent(link, d) != 0
    requires 2 <= j < SLOTS && es[j] == FREE && i !in link && i != d && i != 0 && i != ROOT_INODE
    requires NameOk(name) && Lookup(es, name) == None
    ensures DirOk(link[i := (d, j)], d, es[j := Entry(i, name)])
  {
    hide Lookup;
    DirOkProper(link, d, es);
    var e, es', link' := Entry(i, name), es[j := Entry(i, name)], link[i := (d, j)];
    NameAbsent(es, name);
    hide Unique;
    LookupUpdate(es, j, e, name);
    forall k | 2 <= k < SLOTS
      ensures SlotOk(link', d, k, es'[k])
    {
      assert SlotOk(link, d, k, es[k]);
    }
  }

  lemma OtherDirOk(link: Links, link': Links, d: nat, es: seq<Entry>)
    requires DirOk(link, d, es) && Parent(link', d) == Parent(link, d)
    requires forall j :: 2 <= j < SLOTS && es[j].ino in link && link[es[j].ino] == (d, j) ==>
               es[j].ino in link' && link'[es[j].ino] == (d, j)
    ensures DirOk(link', d, es)
  {
    hide Unique;
    forall j | 2 <= j < SLOTS
      ensures SlotOk(link', d, j, es[j])
    {
      assert SlotOk(link, d, j, es[j]);
    }
  }

  lemma NewDirOk(link: Links, i: nat, d: nat)
    requires i in link && link[i].0 == d && i != ROOT_INODE
    ensures DirOk(link, i, NewDir(i, d))
  {
  }

  lemma AddedAtFree(es: seq<Entry>, e: Entry)
    requires FreePos(es) < |es|
    ensures Added(es, e, []) == es[FreePos(es) := e] && es[FreePos(es)].ino == 0
  {
  }

  lemma AddNodeKeys(tr: Tree, d: nat, name: Str, i: nat, k: Kind)
    requires d in tr.ents
    ensures AddNode(tr, d, name, i, k).ents.Keys == if k == Dir then tr.ents.Keys + {i} else tr.ents.Keys
  {
    hide Added, NewDir;
  }

  lemma AddKinds(tr: Tree, d: nat, name: Str, i: nat, k: Kind)
    requires KindsOk(tr) && d in tr.ents && 2 <= i < TOTAL_INODES && i !in tr.kind
    ensures KindsOk(AddNode(tr, d, name, i, k))
  {
    hide Added, NewDir;
  }

  lemma AddLinks(tr: Tree, link: Links, d: nat, name: Str, i: nat, k: Kind)
    requires KindsOk(tr) && LinksOk(tr, link) && d in tr.ents && 2 <= i < TOTAL_INODES && i !in tr.kind
    requires 0 !in link && 2 <= FreePos(tr.ents[d]) < |tr.ents[d]|
    ensures LinksOk(AddNode(tr, d, name, i, k), link[i := (d, FreePos(tr.ents[d]))])
  {
    hide FirstHit, NewDir, FreePos, Added;
    var tr', link' := AddNode(tr, d, name, i, k), link[i := (d, FreePos(tr.ents[d]))];
    AddedAtFree(tr.ents[d], Entry(i, name));
    assert i !in tr.ents && tr'.ents[d] == tr.ents[d][FreePos(tr.ents[d]) := Entry(i, name)];
    forall x | x in link'
      ensures LinkAt(tr'.ents, x, link'[x])
    {
      if x != i {
        assert LinkAt(tr.ents, x, link[x]);
        LinkStays(tr.ents, tr'.ents, d, FreePos(tr.ents[d]), Entry(i, name), i, x, link[x]);
      }
    }
  }

  lemma LinkStays(ents: map<nat, seq<Entry>>, ents': map<nat, seq<Entry>>, d: nat, j: nat, e: Entry, i: nat, x: nat,
                  at: (nat, nat))
    requires d in ents && j < |ents[d]| && ents[d][j].ino == 0 && x != 0 && i !in ents && LinkAt(ents, x, at)
    requires d in ents' && ents'[d] == ents[d][j := e]
    requires forall c :: c in ents && c != d ==> c in ents' && ents'[c] == ents[c]
    ensures LinkAt(ents', x, at)
  {
  }

  lemma AddDepth(dirs: set<nat>, link: Links, depth: Depths, d: nat, i: nat, j: nat)
    requires DepthOk(dirs, link, depth) && d in dirs && i !in dirs && i !in link && i != ROOT_INODE
    requires forall c :: c in dirs ==> Parent(link, c) in dirs && (c != ROOT_INODE ==> c in link)
    ensures DepthOk(dirs + {i}, link[i := (d, j)], depth[i := depth[d] + 1])
    ensures DepthOk(dirs, link[i := (d, j)], depth[i := depth[d] + 1])
  {
    var link' := link[i := (d, j)];
    forall c | c in dirs
      ensures Parent(link', c) == Parent(link, c) != i
    {
    }
  }

  lemma AddDirs(tr: Tree, link: Links, depth: Depths, d: nat, name: Str, i: nat, k: Kind)
    requires TreeOk(tr, link, depth) && d in tr.ents && 2 <= i < TOTAL_INODES && i !in tr.kind
    requires NameOk(name) && Lookup(tr.ents[d], name) == None
    ensures DirsOk(AddNode(tr, d, name, i, k), link[i := (d, FreePos(tr.ents[d]))])
  {
    hide Lookup, FirstHit, DirOk, NameOk, TreeOk;
    DirFacts(tr, link, depth, d);
    DirFacts(tr, link, depth, Parent(link, d));
    RoomForEntry(tr, link, depth, d, i);
    AbsentLink(tr, link, depth, i);
    var j := FreePos(tr.ents[d]);
    var tr', link' := AddNode(tr, d, name, i, k), link[i := (d, j)];
    StoredDirOk(link, d, tr.ents[d], j, name, i);
    NewDirOk(link', i, d);
    forall c | c in tr'.ents
      ensures DirOk(link', c, tr'.ents[c])
    {
      if c != d && c != i {
        DirFacts(tr, link, depth, c);
        OtherDirOk(link, link', c, tr.ents[c]);
      }
    }
  }

  lemma AbsentLink(tr: Tree, link: Links, depth: Depths, i: nat)
    requires TreeOk(tr, link, depth) && i !in tr.kind
    ensures i !in link && i !in tr.ents && i != ROOT_INODE
  {
  }

  lemma ParentsAreDirs(tr: Tree, link: Links, depth: Depths)
    requires TreeOk(tr, link, depth)
    ensures forall c :: c in tr.ents ==> Parent(link, c) in tr.ents
    ensures forall c :: c in tr.ents && c != ROOT_INODE ==> c in link
  {
    hide DirsOk, DepthOk;
  }

  /** Naming a fresh inode keeps the tree a tree. */
  lemma AddKeepsTree(tr: Tree, link: Links, depth: Depths, d: nat, name: Str, i: nat, k: Kind)
    requires TreeOk(tr, link, depth) && d in tr.ents && 2 <= i < TOTAL_INODES && i !in tr.kind
    requires NameOk(name) && Lookup(tr.ents[d], name) == None
    ensures d in depth
    ensures TreeOk(AddNode(tr, d, name, i, k), link[i := (d, FreePos(tr.ents[d]))], depth[i := depth[d] + 1])
  {
    hide Lookup, FirstHit, DirsOk, LinksOk, KindsOk, DepthOk, AddNode;
    RoomForEntry(tr, link, depth, d, i);
    AddKinds(tr, d, name, i, k);
    LinkRange(tr, link, depth);
    AddLinks(tr, link, d, name, i, k);
    AbsentLink(tr, link, depth, i);
    ParentsAreDirs(tr, link, depth);
    DirFacts(tr, link, depth, d);
    AddDepth(tr.ents.Keys, link, depth, d, i, FreePos(tr.ents[d]));
    AddNodeKeys(tr, d, name, i, k);
    AddDirs(tr, link, depth, d, name, i, k);
  }

  // ---- removing an inode's name ----

  ghost predicate EmptyDir(es: seq<Entry>) {
    forall j :: 2 <= j < |es| ==> es[j] == FREE
  }

  /** The entry that `name` finds in `d`, when it is not one of the dots, is the link of its inode. */
  lemma NamedLink(tr: Tree, link: Links, depth: Depths, d: nat, name: Str, i: nat)
    requires TreeOk(tr, link, depth) && d in tr.ents
    requires Lookup(tr.ents[d], name) == Some(i) && name != DOT && name != DOTDOT
    ensures var j := FirstHit(tr.ents[d], ByName(name), 0);
            && 2 <= j < SLOTS == |tr.ents[d]| && tr.ents[d][j].ino == i && i in link && link[i] == (d, j)
            && tr.ents[d][j].name == name && |name| <= 27
    ensures i != ROOT_INODE && i in tr.kind && i != d && i != 0
  {
    hide Unique, DirsOk, KindsOk, LinksOk, DepthOk;
    DirFacts(tr, link, depth, d);
    var es := tr.ents[d];
    var j := FirstHit(es, ByName(name), 0);
    NoHit(es, name);
    assert SlotOk(link, d, j, es[j]);
    LinkFacts(tr, link, depth, i);
    if i == d {
      DirFacts(tr, link, depth, i);
      OwnParent(tr, link, depth, d);
    }
  }

  lemma OwnParent(tr: Tree, link: Links, depth: Depths, d: nat)
    requires TreeOk(tr, link, depth) && d in tr.ents && d != ROOT_INODE
    ensures Parent(link, d) != d && depth[d] == depth[Parent(link, d)] + 1
  {
    hide DirsOk, KindsOk, LinksOk;
  }

  lemma LinkFacts(tr: Tree, link: Links, depth: Depths, i: nat)
    requires TreeOk(tr, link, depth) && i in link
    ensures i in tr.kind && i != ROOT_INODE && link[i].0 in tr.ents && LinkAt(tr.ents, i, link[i]) && i >= 1
  {
    hide DirsOk, DepthOk;
  }

  lemma LinkRange(tr: Tree, link: Links, depth: Depths)
    requires TreeOk(tr, link, depth)
    ensures 0 !in link
  {
    hide DirsOk, DepthOk;
  }

  lemma RemovedDirOk(link: Links, d: nat, es: seq<Entry>, j: nat, i: nat)
    requires DirOk(link, d, es) && d != 0 && Parent(link, d) != 0 && i != d
    requires 2 <= j < SLOTS && es[j].ino == i && i in link && link[i] == (d, j)
    ensures DirOk(link - {i}, d, es[j := FREE])
  {
    DirOkProper(link, d, es);
    LookupUpdate(es, j, FREE, []);
    hide Unique;
    var es' := es[j := FREE];
    forall k | 2 <= k < SLOTS
      ensures SlotOk(link - {i}, d, k, es'[k])
    {
      assert SlotOk(link, d, k, es[k]);
    }
  }

  lemma RemoveKinds(tr: Tree, d: nat, name: Str, i: nat)
    requires KindsOk(tr) && d in tr.ents && i != ROOT_INODE && i != d
    ensures KindsOk(RemoveNode(tr, d, name, i))
  {
    hide Removed;
  }

  lemma RemoveLinks(tr: Tree, link: Links, d: nat, name: Str, i: nat, j: nat)
    requires LinksOk(tr, link) && d in tr.ents && i != ROOT_INODE && i != d && 0 !in link
    requires j < |tr.ents[d]| && Removed(tr.ents[d], name) == tr.ents[d][j := FREE] && tr.ents[d][j].ino == i
    requires i in tr.ents ==> EmptyDir(tr.ents[i])
    ensures LinksOk(RemoveNode(tr, d, name, i), link - {i})
  {
    hide Removed;
    var ents, link' := RemoveNode(tr, d, name, i).ents, link - {i};
    forall x | x in link'
      ensures LinkAt(ents, x, link'[x])
    {
      assert LinkAt(tr.ents, x, link[x]);
      LinkSurvives(tr.ents, ents, d, j, i, x, link[x]);
    }
  }

  lemma LinkSurvives(ents: map<nat, seq<Entry>>, ents': map<nat, seq<Entry>>, d: nat, j: nat, i: nat, x: nat,
                     at: (nat, nat))
    requires d in ents && j < |ents[d]| && ents[d][j].ino == i && x != i && x != 0 && LinkAt(ents, x, at)
    requires ents' == ents[d := ents[d][j := FREE]] - {i} && d != i
    requires i in ents ==> EmptyDir(ents[i])
    ensures LinkAt(ents', x, at)
  {
  }

  lemma RemoveDepth(dirs: set<nat>, link: Links, depth: Depths, i: nat)
    requires DepthOk(dirs, link, depth)
    requires forall c :: c in dirs && c != ROOT_INODE ==> c in link
    ensures DepthOk(dirs - {i}, link - {i}, depth)
  {
    forall c | c in dirs - {i}
      ensures Parent(link - {i}, c) == Parent(link, c)
    {
    }
  }

  lemma RemoveDirs(tr: Tree, link: Links, depth: Depths, d: nat, name: Str, i: nat)
    requires TreeOk(tr, link, depth) && d in tr.ents
    requires Lookup(tr.ents[d], name) == Some(i) && name != DOT && name != DOTDOT
    requires i in tr.ents ==> EmptyDir(tr.ents[i])
    ensures DirsOk(RemoveNode(tr, d, name, i), link - {i})
  {
    hide Lookup, FirstHit, DirOk, NameOk, TreeOk;
    NamedLink(tr, link, depth, d, name, i);
    var tr', link' := RemoveNode(tr, d, name, i), link - {i};
    DirFacts(tr, link, depth, d);
    DirFacts(tr, link, depth, Parent(link, d));
    RemovedDirOk(link, d, tr.ents[d], FirstHit(tr.ents[d], ByName(name), 0), i);
    forall c | c in tr'.ents
      ensures DirOk(link', c, tr'.ents[c])
    {
      if c != d {
        DirFacts(tr, link, depth, c);
        OtherDirOk(link, link', c, tr.ents[c]);
      }
    }
  }

  /** Removing a file or an empty directory keeps the tree a tree. */
  lemma RemoveKeepsTree(tr: Tree, link: Links, depth: Depths, d: nat, name: Str, i: nat)
    requires TreeOk(tr, link, depth) && d in tr.ents
    requires Lookup(tr.ents[d], name) == Some(i) && name != DOT && name != DOTDOT
    requires i in tr.ents ==> EmptyDir(tr.ents[i])
    ensures TreeOk(RemoveNode(tr, d, name, i), link - {i}, depth)
  {
    hide Lookup, FirstHit, DirsOk, LinksOk, KindsOk, DepthOk;
    NamedLink(tr, link, depth, d, name, i);
    ParentsAreDirs(tr, link, depth);
    LinkRange(tr, link, depth);
    RemoveKinds(tr, d, name, i);
    RemoveLinks(tr, link, d, name, i, FirstHit(tr.ents[d], ByName(name), 0));
    RemoveDirs(tr, link, depth, d, name, i);
    RemoveDepth(tr.ents.Keys, link, depth, i);
    assert RemoveNode(tr, d, name, i).ents.Keys == tr.ents.Keys - {i};
  }

  /** Adding a name and removing it again restores the tree. */
  lemma RemoveUndoesAddNode(tr: Tree, link: Links, depth: Depths, d: nat, name: Str, i: nat, k: Kind)
    requires TreeOk(tr, link, depth) && d in tr.ents && 2 <= i < TOTAL_INODES && i !in tr.kind
    requires NameOk(name) && Lookup(tr.ents[d], name) == None
    ensures RemoveNode(AddNode(tr, d, name, i, k), d, name, i) == tr
  {
    hide Lookup, FirstHit, DirOk, Added, Removed, NewDir, TreeOk, Unique, Proper, NameOk, Cut, FreePos;
    AbsentLink(tr, link, depth, i);
    DirFacts(tr, link, depth, d);
    DirFacts(tr, link, depth, Parent(link, d));
    DirOkProper(link, d, tr.ents[d]);
    DirOkUnique(link, d, tr.ents[d]);
    RoomForEntry(tr, link, depth, d, i);
    NameCut(name);
    RemoveUndoesAdd(tr.ents[d], name, i);
    FreeExists(tr.ents[d], FreePos(tr.ents[d]));
    PutBack(tr.ents, d, i, Added(tr.ents[d], Entry(i, name), []), NewDir(i, d));
    assert tr.kind[i := k] - {i} == tr.kind;
  }

  lemma FreeExists(es: seq<Entry>, j: nat)
    requires j < |es| && es[j] == FREE
    ensures exists j :: 0 <= j < |es| && es[j].ino == 0
  {
  }

  lemma NameCut(name: Str)
    requires NameOk(name)
    ensures Cut(name) == name && |name| <= 27
  {
  }

  lemma PutBack<T>(m: map<nat, T>, d: nat, i: nat, a: T, b: T)
    requires d in m && i !in m
    ensures m[d := a][d := m[d]] - {i} == m
    ensures m[d := a][i := b][d := m[d]] - {i} == m
  {
  }

  lemma DirOkUnique(link: Links, d: nat, es: seq<Entry>)
    requires DirOk(link, d, es)
    ensures Unique(es) && |es| == SLOTS
  {
    hide Unique;
  }

  /** After adding, the new name finds the new inode and every other name finds what it found. */
  lemma AddNodeLookup(tr: Tree, link: Links, depth: Depths, d: nat, name: Str, i: nat, k: Kind, n: Str)
    requires TreeOk(tr, link, depth) && d in tr.ents && 2 <= i < TOTAL_INODES && i !in tr.kind
    requires NameOk(name) && Lookup(tr.ents[d], name) == None
    ensures d in AddNode(tr, d, name, i, k).ents && d != i
    ensures Lookup(AddNode(tr, d, name, i, k).ents[d], n) == if n == name then Some(i) else Lookup(tr.ents[d], n)
    ensures forall c :: c in tr.ents && c != d ==> c in AddNode(tr, d, name, i, k).ents
                                                   && AddNode(tr, d, name, i, k).ents[c] == tr.ents[c]
    ensures k == Dir ==> i in AddNode(tr, d, name, i, k).ents
  {
    hide Lookup, FirstHit, DirOk, TreeOk, Unique, NameOk, Added, NewDir, Proper;
    AbsentLink(tr, link, depth, i);
    DirFacts(tr, link, depth, d);
    DirFacts(tr, link, depth, Parent(link, d));
    DirOkProper(link, d, tr.ents[d]);
    DirOkUnique(link, d, tr.ents[d]);
    RoomForEntry(tr, link, depth, d, i);
    AddedAtFree(tr.ents[d], Entry(i, name));
    NameCut(name);
    NameAbsent(tr.ents[d], name);
    LookupUpdate(tr.ents[d], FreePos(tr.ents[d]), Entry(i, name), n);
  }

  /** After removing, the name finds nothing and every other name finds what it found. */
  lemma RemoveNodeLookup(tr: Tree, link: Links, depth: Depths, d: nat, name: Str, i: nat, n: Str)
    requires TreeOk(tr, link, depth) && d in tr.ents
    requires Lookup(tr.ents[d], name) == Some(i) && name != DOT && name != DOTDOT
    ensures d in RemoveNode(tr, d, name, i).ents
    ensures Lookup(RemoveNode(tr, d, name, i).ents[d], n) == if n == name then None else Lookup(tr.ents[d], n)
  {
    hide Lookup, FirstHit, DirOk, TreeOk, Unique, Proper;
    NamedLink(tr, link, depth, d, name, i);
    DirFacts(tr, link, depth, d);
    DirFacts(tr, link, depth, Parent(link, d));
    DirOkProper(link, d, tr.ents[d]);
    DirOkUnique(link, d, tr.ents[d]);
    LookupUpdate(tr.ents[d], FirstHit(tr.ents[d], ByName(name), 0), FREE, n);
  }
}
