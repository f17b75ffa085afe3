/** dir.c `build_path_from_inode`: from a directory up to the root, then printed from the root down. */
module BuildPath {
  import opened Bytes
  import opened Layout
  import opened BlockMap
  import opened Volumes
  import opened InodeMap
  import opened Invariants
  import opened Entries
  import opened Directory
  import opened Namespace
  import opened Trees
  import opened Paths
  import opened Listing
  import opened PathLaws
  import opened Filesystem
  import opened FileOps

  const MAX_DEPTH: nat := 128

  /** The directories from `d` up to the root. */
  ghost function Chain(tr: Tree, link: Links, depth: Depths, d: nat): (s: seq<nat>)
    requires TreeOk(tr, link, depth) && d in tr.ents
    ensures d in depth && |s| == depth[d] + 1
    ensures forall i :: 0 <= i < |s| ==> 1 <= s[i] < TOTAL_INODES && s[i] in depth && depth[s[i]] == depth[d] - i
    decreases if d in depth then depth[d] else 0
  {
    hide TreeOk, DirOk, LinkAt, SlotOk;
    DirFacts(tr, link, depth, d);
    RootDepth(tr, link, depth);
    if d == ROOT_INODE then [d]
    else
      OwnParent(tr, link, depth, d);
      [d] + Chain(tr, link, depth, Parent(link, d))
  }

  /** No directory is more than 126 levels below the root: the name buffer of 128 never overflows. */
  lemma DepthBound(tr: Tree, link: Links, depth: Depths, d: nat)
    requires TreeOk(tr, link, depth) && d in tr.ents
    ensures d in depth && depth[d] <= TOTAL_INODES - 2
  {
    hide TreeOk;
    var s := Chain(tr, link, depth, d);
    Pigeonhole(s, 1, TOTAL_INODES);
  }

  /** What the two scans of one upward step find. */
  lemma UpwardStep(tr: Tree, link: Links, depth: Depths, cur: nat)
    requires TreeOk(tr, link, depth) && cur in tr.ents && cur != ROOT_INODE
    ensures var p := Parent(link, cur);
            && FirstHit(tr.ents[cur], ByName(DOTDOT), 0) == 1 < |tr.ents[cur]| && tr.ents[cur][1].ino == p
            && p in tr.ents && cur in link && link[cur].1 < |tr.ents[p]|
            && FirstHit(tr.ents[p], ByIno(cur), 0) == link[cur].1
            && tr.ents[p][link[cur].1].name == OwnName(tr, link, cur)
  {
    hide Unique, DirsOk, KindsOk, LinksOk, DepthOk, FirstHit;
    DirFacts(tr, link, depth, cur);
    LinkFacts(tr, link, depth, cur);
    OwnParent(tr, link, depth, cur);
    var p := Parent(link, cur);
    DirFacts(tr, link, depth, p);
    var es, j := tr.ents[p], link[cur].1;
    FirstHitIs(tr.ents[cur], ByName(DOTDOT), 1);
    if p != ROOT_INODE {
      OwnParent(tr, link, depth, p);
    }
    forall x | 0 <= x < j
      ensures !Hits(ByIno(cur), es[x])
    {
      if x >= 2 {
        assert SlotOk(link, p, x, es[x]);
      }
    }
    FirstHitIs(es, ByIno(cur), j);
  }

  function Reverse(names: seq<Str>): (r: seq<Str>)
    ensures |r| == |names| && forall i :: 0 <= i < |r| ==> r[i] == names[|names| - 1 - i]
  {
    if names == [] then [] else Reverse(names[1..]) + [names[0]]
  }

  lemma {:induction false} JoinGrows(a: seq<Str>, b: seq<Str>)
    ensures Join(a) <= Join(a + b)
    decreases |b|
  {
    if b == [] {
      assert a + b == a;
    } else {
      assert a + b == (a + [b[0]]) + b[1..];
      JoinMore(a, b[0]);
      JoinGrows(a + [b[0]], b[1..]);
    }
  }

  /** What `snprintf` leaves in a buffer of `size` bytes. */
  function Clip(text: Str, size: nat): (s: Str)
    requires size > 0
    ensures s <= text && |s| == if |text| < size then |text| else size - 1
  {
    if |text| < size then text else text[..size - 1]
  }

  /** Walks up from directory `ino`, collecting names. */
  method CollectNames(v: Volume, ino: nat) returns (names: seq<Str>)
    requires Sound(v) && TreeOk(TreeIn(v), v.link, v.depth) && ino in TreeIn(v).ents
    modifies v`disk, v`blockBits, v`bm, v`sb, v`gd, v`owner
    ensures v.Meta() && v.disk == old(v.disk) && v.bm == old(v.bm) && v.owner == old(v.owner)
    ensures TreeOk(TreeIn(v), v.link, v.depth) && ino in TreeIn(v).ents
    ensures Trail(TreeIn(v), v.link, v.depth, ino) == Reverse(names) && |names| <= MAX_DEPTH
  {
    hide v.Meta, Own, FreeOwnNothing, TreeOk, Ents, TreeOf, Trail, FirstHit, Hits, Flat, BlocksFrom, EntryAt,
         OwnName, Reverse, LocOf, At, Img;
    SoundSizes(v);
    ghost var tr := TreeIn(v);
    names := [];
    var cur := ino;
    DirFacts(tr, v.link, v.depth, ino);
    while cur != ROOT_INODE
      modifies v`disk, v`blockBits, v`bm, v`sb, v`gd, v`owner
      invariant v.Meta() && v.disk == old(v.disk) && v.bm == old(v.bm) && v.owner == old(v.owner)
      invariant cur in tr.ents && cur in v.depth && ino in v.depth
      invariant Trail(tr, v.link, v.depth, ino) == Trail(tr, v.link, v.depth, cur) + Reverse(names)
      invariant v.depth[cur] + |names| == v.depth[ino]
      decreases v.depth[cur]
    {
      TreeAt(v.disk, v.inodes, v.im, cur);
      UpwardStep(tr, v.link, v.depth, cur);
      EntsShape(v.disk, v.inodes, cur);
      var inode: Inode, ok: bool;
      ok, inode := ReadInode(v, cur);
      var phys, lb, i, b := ScanDir(v, inode, cur, ByName(DOTDOT));
      var parent := EntryAt(b, i).ino;
      TreeAt(v.disk, v.inodes, v.im, parent);
      EntsShape(v.disk, v.inodes, parent);
      ok, inode := ReadInode(v, parent);
      phys, lb, i, b := ScanDir(v, inode, parent, ByIno(cur));
      var name := EntryAt(b, i).name;
      TrailStep(tr, v.link, v.depth, cur, names, name);
      names := names + [name];
      cur := parent;
    }
    DepthBound(tr, v.link, v.depth, ino);
    TrailOfRoot(tr, v.link, v.depth);
  }

  lemma EntsShape(d: Disk, t: Table, i: nat)
    ensures Ents(d, t, i) == Flat(BlocksFrom(d, t, i, 0)) && |Ents(d, t, i)| == SLOTS * |BlocksFrom(d, t, i, 0)|
  {
  }

  lemma TrailOfRoot(tr: Tree, link: Links, depth: Depths)
    requires TreeOk(tr, link, depth)
    ensures ROOT_INODE in tr.ents && Trail(tr, link, depth, ROOT_INODE) == []
  {
    hide TreeOk;
    RootDepth(tr, link, depth);
  }

  lemma TrailStep(tr: Tree, link: Links, depth: Depths, cur: nat, names: seq<Str>, name: Str)
    requires TreeOk(tr, link, depth) && cur in tr.ents && cur != ROOT_INODE && name == OwnName(tr, link, cur)
    ensures var p := Parent(link, cur);
            && p in tr.ents && p in depth && cur in depth && depth[cur] == depth[p] + 1
            && Trail(tr, link, depth, cur) + Reverse(names) == Trail(tr, link, depth, p) + Reverse(names + [name])
  {
    hide TreeOk, OwnName, Reverse;
    DirFacts(tr, link, depth, cur);
    OwnParent(tr, link, depth, cur);
    assert Reverse(names + [name]) == [name] + Reverse(names);
  }

  /** Prints the path of directory `ino` into a buffer of `size` bytes. */
  method BuildPathFromInode(v: Volume, ino: nat, size: nat) returns (buf: Str)
    requires Sound(v) && TreeOk(TreeIn(v), v.link, v.depth) && ino in TreeIn(v).ents && size > 1
    modifies v`disk, v`blockBits, v`bm, v`sb, v`gd, v`owner
    ensures v.Meta() && v.disk == old(v.disk) && v.bm == old(v.bm) && v.owner == old(v.owner)
    ensures TreeOk(TreeIn(v), v.link, v.depth) && ino in TreeIn(v).ents
    ensures buf == Clip(PathOf(TreeIn(v), v.link, v.depth, ino), size)
    ensures ino == ROOT_INODE ==> buf == [SLASH]
    ensures CleanNames(TreeIn(v)) && |PathOf(TreeIn(v), v.link, v.depth, ino)| < size ==>
              && WellPrinted(Trail(TreeIn(v), v.link, v.depth, ino), buf)
              && (buf[|buf| - 1] == SLASH <==> ino == ROOT_INODE)
  {
    hide v.Meta, Own, FreeOwnNothing, TreeOk, TreeOf, Trail, Join, Reverse, CleanNames, WellPrinted;
    ghost var tr, link, depth := TreeIn(v), v.link, v.depth;
    PrintedWell(tr, link, depth, ino);
    if ino == ROOT_INODE {
      TrailOfRoot(TreeIn(v), v.link, v.depth);
      JoinNothing();
      return [SLASH];
    }
    var names := CollectNames(v, ino);
    ghost var trail := Reverse(names);
    JoinNothing();
    var count := |names|;
    var text: Str := [SLASH];
    var i := count - 1;
    while i >= 0
      modifies {}
      invariant -1 <= i < count
      invariant text == [SLASH] + Join(trail[..count - 1 - i])
      invariant |text| < size
    {
      ghost var done := trail[..count - 1 - i];
      assert trail[..count - i] == done + [names[i]];
      JoinMore(done, names[i]);
      if i == count - 1 {
        text := text + names[i];
      } else {
        text := text + [SLASH] + names[i];
      }
      if |text| >= size {
        JoinGrows(trail[..count - i], trail[count - i..]);
        assert trail[..count - i] + trail[count - i..] == trail;
        ClipPrefix(text, AbsolutePath(trail), size);
        return Clip(text, size);
      }
      i := i - 1;
    }
    assert trail[..count] == trail;
    return Clip(text, size);
  }

  lemma PrintedWell(tr: Tree, link: Links, depth: Depths, d: nat)
    requires TreeOk(tr, link, depth) && d in tr.ents
    ensures var text := PathOf(tr, link, depth, d);
            CleanNames(tr) ==>
              WellPrinted(Trail(tr, link, depth, d), text) && (text[|text| - 1] == SLASH <==> d == ROOT_INODE)
  {
    hide TreeOk, CleanNames, Trail, PathOf;
    if CleanNames(tr) {
      PathOfPrintsWell(tr, link, depth, d);
    }
  }

  lemma JoinNothing()
    ensures Join([]) == [] && AbsolutePath([]) == [SLASH]
  {
  }

  lemma ClipPrefix(a: Str, b: Str, size: nat)
    requires a <= b && |a| >= size > 0
    ensures Clip(a, size) == Clip(b, size)
  {
  }

  /** Looking up the printed path of a directory gives the directory back, from wherever the walk starts,
      when the text fits the path buffer. */
  method PathOfAndBack(v: Volume, ino: nat, start: nat) returns (r: int)
    requires Sound(v) && TreeOk(TreeIn(v), v.link, v.depth) && CleanNames(TreeIn(v))
    requires ino in TreeIn(v).ents && start in TreeIn(v).kind
    requires |PathOf(TreeIn(v), v.link, v.depth, ino)| < MAX_CMD_LEN
    modifies v`disk, v`blockBits, v`bm, v`sb, v`gd, v`owner
    ensures r == ino
  {
    hide v.Meta, Own, FreeOwnNothing, TreeOk, TreeOf, Trail, CleanNames, Resolve, AbsolutePath;
    ghost var tr := TreeIn(v);
    var path := BuildPathFromInode(v, ino, MAX_CMD_LEN);
    PathRoundTrip(tr, v.link, v.depth, ino, start);
    r := FindInodeByPath(v, path, start);
  }

  /** A directory and the one that lists it: the child's text is the parent's, '/' and the name, and for a
      child of the root just '/' and the name. */
  method ParentAndChild(v: Volume, p: nat, ghost name: Str, d: nat, size: nat) returns (above: Str, below: Str)
    requires Sound(v) && TreeOk(TreeIn(v), v.link, v.depth) && d in TreeIn(v).ents && size > 1
    requires (p, name, d) in Edges(TreeIn(v)) && name != DOT && name != DOTDOT
    modifies v`disk, v`blockBits, v`bm, v`sb, v`gd, v`owner
    ensures old(|PathOf(TreeIn(v), v.link, v.depth, d)|) < size ==>
              below == (if p == ROOT_INODE then [] else above) + [SLASH] + name
  {
    hide v.Meta, Own, FreeOwnNothing, TreeOk, TreeOf, Edges, CleanNames, PathOf, WellPrinted;
    PathOfChild(TreeIn(v), v.link, v.depth, p, name, d);
    above := BuildPathFromInode(v, p, size);
    below := BuildPathFromInode(v, d, size);
  }

  /** From directory `d`, a relative path finds what the printed path of `d`, '/' and it find from anywhere. */
  method FindBothWays(v: Volume, d: nat, path: Str, start: nat) returns (here: int, there: int)
    requires Sound(v) && TreeOk(TreeIn(v), v.link, v.depth) && CleanNames(TreeIn(v))
    requires d in TreeIn(v).ents && start in TreeIn(v).kind && (path == [] || path[0] != SLASH)
    requires |PathOf(TreeIn(v), v.link, v.depth, d)| + 1 + |path| < MAX_CMD_LEN
    modifies v`disk, v`blockBits, v`bm, v`sb, v`gd, v`owner
    ensures here == there
  {
    hide v.Meta, Own, FreeOwnNothing, TreeOk, TreeOf, CleanNames, PathOf, WellPrinted, Resolve, FoundAs;
    ghost var tr := TreeIn(v);
    ResolveFrom(tr, v.link, v.depth, d, path, start);
    KindOfDir(tr, v.link, v.depth, d);
    here := FindInodeByPath(v, path, d);
    var text := BuildPathFromInode(v, d, MAX_CMD_LEN);
    there := FindInodeByPath(v, text + [SLASH] + path, start);
  }

  lemma KindOfDir(tr: Tree, link: Links, depth: Depths, d: nat)
    requires TreeOk(tr, link, depth) && d in tr.ents
    ensures d in tr.kind && tr.kind[d] == Dir
  {
    hide LinksOk, DirsOk, DepthOk;
  }
}
