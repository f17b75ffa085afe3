/** Creating, opening, deleting, making and removing directories, told by directories and names: what the path before
    the last '/' stands for, the name behind it, and what the names in the tree are afterwards. */
module PathOps {
  import opened Bytes
  import opened Layout
  import opened BlockMap
  import opened Volumes
  import opened ReleaseBlocks
  import opened Space
  import opened Invariants
  import opened Entries
  import opened Directory
  import opened Trees
  import opened Listing
  import opened Paths
  import opened PathLaws
  import opened Filesystem
  import opened FileOps
  import opened Directories
  import opened BuildPath

  // ---- the two parts of a path ----

  /** The directory part that `a` stands for in `a + "/" + name`. */
  function Before(a: Str): Str {
    if a == [] then [SLASH] else a
  }

  lemma SplitUnder(a: Str, c: Str)
    requires SLASH !in c
    ensures SplitPath(a + [SLASH] + c) == if c == [] || |a| >= MAX_CMD_LEN then None else Some((Before(a), Cut(c)))
  {
    hide LastSlash;
    LastSlashIs(a, c, a + [SLASH] + c);
  }

  lemma SplitBare(c: Str)
    requires SLASH !in c
    ensures SplitPath(c) == if c == [] then None else Some((DOT, Cut(c)))
  {
    hide LastSlash;
    NoSlash(c);
    assert c[0..] == c;
  }

  lemma NoSlash(c: Str)
    requires SLASH !in c
    ensures LastSlash(c) == -1
  {
    hide LastSlash;
    forall k | 0 <= k < |c|
      ensures c[k] != SLASH
    {
      assert c[k] in c;
    }
  }

  /** What `a + "/" + c` stands for: the inode that `a` lists under `c`. */
  lemma ResolveUnder(tr: Tree, link: Links, depth: Depths, a: Str, c: Str, start: nat, i: nat)
    requires TreeOk(tr, link, depth) && Bare(c) && c != DOT && |a| + 1 + |c| < MAX_CMD_LEN
    ensures Resolve(tr, a + [SLASH] + c, start) == Some(i)
            <==> var d := Resolve(tr, Before(a), start); d.Some? && (d.value, c, i) in Edges(tr)
  {
    hide TreeOk, Edges, Resolve;
    var none: Str := [];
    assert none + [SLASH] + c == [SLASH] + c;
    if a == [] {
      ResolveSlash(tr, c, start);
      RootPath(tr, start);
      ResolveName(tr, link, depth, c, ROOT_INODE, i);
    } else {
      assert c[0] in c;
      ResolveJoin(tr, a, c, start);
      var d := Resolve(tr, a, start);
      if d.Some? {
        ResolveName(tr, link, depth, c, d.value, i);
      }
    }
  }

  lemma RootPath(tr: Tree, start: nat)
    ensures Resolve(tr, [SLASH], start) == Some(ROOT_INODE)
  {
    TokensOfSlash();
  }

  /** The printed path of `d`, '/' and a name stand for what `d` lists under that name. */
  lemma ResolveAt(tr: Tree, link: Links, depth: Depths, d: nat, c: Str, start: nat, i: nat)
    requires TreeOk(tr, link, depth) && CleanNames(tr) && d in tr.ents && Bare(c) && c != DOT
    requires |PathOf(tr, link, depth, d)| + 1 + |c| < MAX_CMD_LEN
    ensures Resolve(tr, PathOf(tr, link, depth, d) + [SLASH] + c, start) == Some(i) <==> (d, c, i) in Edges(tr)
  {
    hide TreeOk, Edges, Resolve, Trail, CleanNames, Join;
    PathRoundTrip(tr, link, depth, d, start);
    ResolveUnder(tr, link, depth, PathOf(tr, link, depth, d), c, start, i);
  }

  // ---- creating ----

  /** Creating `name` in what the directory part stands for: exactly when it can be done, and what is then there. */
  ghost predicate Creates(tr: Tree, files: map<nat, seq<byte>>, dir: Option<nat>, name: Str, permitted: bool, r: int,
                          tr': Tree, files': map<nat, seq<byte>>) {
    && (r != -1 <==> && dir.Some? && IsDir(tr, dir.value) && !Listed(tr, dir.value, name) && permitted
                     && exists i :: 1 <= i < TOTAL_INODES && i !in tr.kind)
    && (if r == -1 then tr' == tr && files' == files
        else
          && NextInode(tr, r) && tr'.kind == tr.kind[r := File] && files' == files[r := []]
          && Edges(tr') == Edges(tr) + {(dir.value, name, r)})
  }

  lemma TargetIs(tr: Tree, link: Links, depth: Depths, path: Str, cwd: nat, dir: Str, name: Str)
    requires TreeOk(tr, link, depth) && SplitPath(path) == Some((dir, name))
    ensures var d := Resolve(tr, dir, cwd);
            CreateTarget(tr, path, cwd)
            == if d.Some? && IsDir(tr, d.value) && !Listed(tr, d.value, name) then Some((d.value, name)) else None
  {
    hide TreeOk, Lookup, Resolve, Listed, SplitPath;
    var d := Resolve(tr, dir, cwd);
    if d.Some? {
      DirHasEnts(tr, link, depth, d.value);
      if d.value in tr.ents {
        ListedIsMapped(tr, link, depth, d.value, name);
      }
    }
  }

  /** What a creation with a target does is what `Creates` says. */
  lemma CreateMeans(tr: Tree, link: Links, depth: Depths, files: map<nat, seq<byte>>, path: Str, cwd: nat, dir: Str,
                    name: Str, permitted: bool, r: int, tr': Tree, files': map<nat, seq<byte>>)
    requires TreeOk(tr, link, depth) && SplitPath(path) == Some((dir, name))
    requires r == -1 <==> CreateTarget(tr, path, cwd) == None || !permitted
                          || forall i :: 1 <= i < TOTAL_INODES ==> i in tr.kind
    requires r == -1 ==> tr' == tr && files' == files
    requires r != -1 ==> var (d, n) := CreateTarget(tr, path, cwd).value;
                         NextInode(tr, r) && tr' == AddNode(tr, d, n, r, File) && files' == files[r := []]
    ensures Creates(tr, files, Resolve(tr, dir, cwd), name, permitted, r, tr', files')
  {
    hide TreeOk, Resolve, Listed, SplitPath, Edges, CreateTarget, Added, NewDir;
    TargetIs(tr, link, depth, path, cwd, dir, name);
    if r != -1 {
      var d := Resolve(tr, dir, cwd).value;
      DirHasEnts(tr, link, depth, d);
      EdgesAfterAdd(tr, link, depth, d, name, r, File);
    }
  }

  lemma NotCreated(tr: Tree, files: map<nat, seq<byte>>, dir: Option<nat>, name: Str, permitted: bool)
    requires dir == None
    ensures Creates(tr, files, dir, name, permitted, -1, tr, files)
  {
    hide Listed, Edges;
  }

  /** `a + "/" + c` creates `c` in what `a` stands for, "/" when `a` is empty. */
  method CreateUnder(v: Volume, a: Str, c: Str, cwd: nat, permitted: bool) returns (r: int)
    requires Fs(v) && cwd in TreeIn(v).kind && SLASH !in c
    modifies v
    ensures Fs(v)
    ensures var tr := old(TreeIn(v));
            Creates(tr, old(FilesIn(v)), if c == [] || |a| >= MAX_CMD_LEN then None else Resolve(tr, Before(a), cwd),
                    Cut(c), permitted, r, TreeIn(v), FilesIn(v))
  {
    hide v.Meta, Own, FreeOwnNothing, TreeOk, Exact, Dense, FdsOk, TreeOf, FilesOf, AddNode, Resolve, SplitPath, Tidy,
         NextInode, CreateTarget, Creates;
    ghost var tr, files, link, depth := TreeIn(v), FilesIn(v), v.link, v.depth;
    SplitUnder(a, c);
    var path := a + [SLASH] + c;
    r := OscdfsCreate(v, path, cwd, permitted);
    if c == [] || |a| >= MAX_CMD_LEN {
      NoTarget(tr, path, cwd);
      NotCreated(tr, files, None, Cut(c), permitted);
    } else {
      CreateMeans(tr, link, depth, files, path, cwd, Before(a), Cut(c), permitted, r, TreeIn(v), FilesIn(v));
    }
  }

  lemma NoTarget(tr: Tree, path: Str, cwd: nat)
    requires SplitPath(path) == None
    ensures CreateTarget(tr, path, cwd) == None && DeleteTarget(tr, path, cwd) == None
  {
    hide SplitPath;
  }

  /** A bare name is created in the current directory. */
  method CreateHere(v: Volume, c: Str, cwd: nat, permitted: bool) returns (r: int)
    requires Fs(v) && cwd in TreeIn(v).kind && SLASH !in c
    modifies v
    ensures Fs(v)
    ensures Creates(old(TreeIn(v)), old(FilesIn(v)), if c == [] then None else Some(cwd), Cut(c), permitted, r,
                    TreeIn(v), FilesIn(v))
  {
    hide v.Meta, Own, FreeOwnNothing, TreeOk, Exact, Dense, FdsOk, TreeOf, FilesOf, AddNode, Resolve, SplitPath, Tidy,
         NextInode, CreateTarget, Creates;
    ghost var tr, files, link, depth := TreeIn(v), FilesIn(v), v.link, v.depth;
    SplitBare(c);
    ResolveNothing(tr, cwd);
    r := OscdfsCreate(v, c, cwd, permitted);
    if c == [] {
      NoTarget(tr, c, cwd);
      NotCreated(tr, files, None, Cut(c), permitted);
    } else {
      CreateMeans(tr, link, depth, files, c, cwd, DOT, Cut(c), permitted, r, TreeIn(v), FilesIn(v));
    }
  }

  /** The printed path of `d`, '/' and a name create that name in `d`, from whatever current directory. */
  method CreateAt(v: Volume, d: nat, c: Str, cwd: nat, permitted: bool) returns (r: int)
    requires Fs(v) && CleanNames(TreeIn(v)) && cwd in TreeIn(v).kind && d in TreeIn(v).ents && Bare(c)
    requires |PathOf(TreeIn(v), v.link, v.depth, d)| < MAX_CMD_LEN
    modifies v
    ensures Fs(v)
    ensures Creates(old(TreeIn(v)), old(FilesIn(v)), Some(d), Cut(c), permitted, r, TreeIn(v), FilesIn(v))
  {
    hide v.Meta, Own, FreeOwnNothing, TreeOk, Exact, Dense, FdsOk, TreeOf, FilesOf, Resolve, Creates, CleanNames, Trail,
         Join, WellPrinted;
    ghost var tr := TreeIn(v);
    PathRoundTrip(tr, v.link, v.depth, d, cwd);
    var text := BuildPathFromInode(v, d, MAX_CMD_LEN);
    r := CreateUnder(v, text, c, cwd, permitted);
  }

  // ---- deleting ----

  /** Deleting `name` from what the directory part stands for. */
  ghost predicate Deletes(tr: Tree, files: map<nat, seq<byte>>, fds: seq<Fd>, dir: Option<nat>, name: Str,
                          permitted: bool, r: int, tr': Tree, files': map<nat, seq<byte>>) {
    && (r == 0 <==> && dir.Some? && permitted
                    && exists i: nat :: (dir.value, name, i) in Edges(tr) && IsFile(tr, i) && !IsOpen(fds, i))
    && (if r != 0 then r == -1 && tr' == tr && files' == files
        else
          forall i: nat :: (dir.value, name, i) in Edges(tr) ==>
            && Edges(tr') == Edges(tr) - {(dir.value, name, i)}
            && tr'.kind == tr.kind - {i} && files' == files - {i})
  }

  lemma VictimIs(tr: Tree, link: Links, depth: Depths, path: Str, cwd: nat, dir: Str, name: Str, i: nat)
    requires TreeOk(tr, link, depth) && SplitPath(path) == Some((dir, name))
    ensures var d, t := Resolve(tr, dir, cwd), DeleteTarget(tr, path, cwd);
            && (t.Some? && t.value.2 == i <==> d.Some? && (d.value, name, i) in Edges(tr) && IsFile(tr, i))
            && (t.Some? ==> d.Some? && t.value == (d.value, name, t.value.2))
  {
    hide TreeOk, Lookup, Resolve, Edges, SplitPath;
    var d := Resolve(tr, dir, cwd);
    if d.Some? {
      EdgeIsLookup(tr, link, depth, d.value, name, i);
    }
  }

  lemma DeleteMeans(tr: Tree, link: Links, depth: Depths, files: map<nat, seq<byte>>, fds: seq<Fd>, path: Str, cwd: nat,
                    dir: Str, name: Str, permitted: bool, r: int, tr': Tree, files': map<nat, seq<byte>>)
    requires TreeOk(tr, link, depth) && SplitPath(path) == Some((dir, name))
    requires var t := DeleteTarget(tr, path, cwd);
             && r == (if t == None || !permitted || IsOpen(fds, t.value.2) then -1 else 0)
             && (r == 0 ==> && t.value.0 in tr.ents && tr' == RemoveNode(tr, t.value.0, t.value.1, t.value.2)
                            && files' == files - {t.value.2})
             && (r == -1 ==> tr' == tr && files' == files)
    ensures Deletes(tr, files, fds, Resolve(tr, dir, cwd), name, permitted, r, tr', files')
  {
    hide TreeOk, Resolve, SplitPath, Edges, DeleteTarget, Removed, IsOpen;
    var d, t := Resolve(tr, dir, cwd), DeleteTarget(tr, path, cwd);
    forall i: nat
      ensures t.Some? && t.value.2 == i <==> d.Some? && (d.value, name, i) in Edges(tr) && IsFile(tr, i)
    {
      VictimIs(tr, link, depth, path, cwd, dir, name, i);
    }
    VictimIs(tr, link, depth, path, cwd, dir, name, 0);
    if r == 0 {
      var i := t.value.2;
      assert (d.value, name, i) in Edges(tr);
      FileEdge(tr, link, depth, d.value, name, i);
      EdgesAfterRemove(tr, link, depth, d.value, name, i);
      forall k: nat | (d.value, name, k) in Edges(tr)
        ensures k == i
      {
        OneEdge(tr, link, depth, d.value, name, i, k);
      }
    }
  }

  lemma FileEdge(tr: Tree, link: Links, depth: Depths, d: nat, name: Str, i: nat)
    requires TreeOk(tr, link, depth) && (d, name, i) in Edges(tr) && IsFile(tr, i)
    ensures name != DOT && name != DOTDOT && i !in tr.ents
  {
    hide TreeOk, Edges;
    DirHasEnts(tr, link, depth, i);
    EdgeHasSlot(tr, d, name, i);
    DirFacts(tr, link, depth, d);
    if name == DOT || name == DOTDOT {
      DotEdges(tr, link, depth, d, i);
    }
  }

  lemma NotDeleted(tr: Tree, files: map<nat, seq<byte>>, fds: seq<Fd>, name: Str, permitted: bool)
    ensures Deletes(tr, files, fds, None, name, permitted, -1, tr, files)
  {
    hide Edges, IsOpen;
  }

  /** `a + "/" + c` deletes the file `c` of what `a` stands for, "/" when `a` is empty. */
  method DeleteUnder(v: Volume, a: Str, c: Str, cwd: nat, permitted: bool) returns (r: int)
    requires Fs(v) && cwd in TreeIn(v).kind && SLASH !in c
    modifies v
    ensures Fs(v)
    ensures var tr := old(TreeIn(v));
            Deletes(tr, old(FilesIn(v)), v.fds[..],
                    if c == [] || |a| >= MAX_CMD_LEN then None else Resolve(tr, Before(a), cwd), Cut(c),
                    permitted, r, TreeIn(v), FilesIn(v))
  {
    hide v.Meta, Own, FreeOwnNothing, TreeOk, Exact, Dense, FdsOk, TreeOf, FilesOf, RemoveNode, Resolve, SplitPath,
         Tidy, DeleteTarget, Deletes, IsOpen, ClearedBy, OwnedBy, WithoutIno;
    ghost var tr, files, link, depth := TreeIn(v), FilesIn(v), v.link, v.depth;
    SplitUnder(a, c);
    var path := a + [SLASH] + c;
    r := OscdfsDelete(v, path, cwd, permitted);
    if c == [] || |a| >= MAX_CMD_LEN {
      NoTarget(tr, path, cwd);
      NotDeleted(tr, files, v.fds[..], Cut(c), permitted);
    } else {
      DeleteMeans(tr, link, depth, files, v.fds[..], path, cwd, Before(a), Cut(c), permitted, r, TreeIn(v), FilesIn(v));
    }
  }

  /** A bare name is deleted from the current directory. */
  method DeleteHere(v: Volume, c: Str, cwd: nat, permitted: bool) returns (r: int)
    requires Fs(v) && cwd in TreeIn(v).kind && SLASH !in c
    modifies v
    ensures Fs(v)
    ensures Deletes(old(TreeIn(v)), old(FilesIn(v)), v.fds[..], if c == [] then None else Some(cwd), Cut(c),
                    permitted, r, TreeIn(v), FilesIn(v))
  {
    hide v.Meta, Own, FreeOwnNothing, TreeOk, Exact, Dense, FdsOk, TreeOf, FilesOf, RemoveNode, Resolve, SplitPath,
         Tidy, DeleteTarget, Deletes, IsOpen, ClearedBy, OwnedBy, WithoutIno;
    ghost var tr, files, link, depth := TreeIn(v), FilesIn(v), v.link, v.depth;
    SplitBare(c);
    ResolveNothing(tr, cwd);
    r := OscdfsDelete(v, c, cwd, permitted);
    if c == [] {
      NoTarget(tr, c, cwd);
      NotDeleted(tr, files, v.fds[..], Cut(c), permitted);
    } else {
      DeleteMeans(tr, link, depth, files, v.fds[..], c, cwd, DOT, Cut(c), permitted, r, TreeIn(v), FilesIn(v));
    }
  }

  /** Any file can be deleted by the printed path of its directory, '/' and its name, from whatever current
      directory: exactly when that is permitted and no descriptor has the file open. */
  method DeleteAt(v: Volume, d: nat, c: Str, ghost i: nat, cwd: nat, permitted: bool) returns (r: int)
    requires Fs(v) && CleanNames(TreeIn(v)) && cwd in TreeIn(v).kind
    requires d in TreeIn(v).ents && (d, c, i) in Edges(TreeIn(v)) && IsFile(TreeIn(v), i)
    requires |PathOf(TreeIn(v), v.link, v.depth, d)| < MAX_CMD_LEN
    modifies v
    ensures Fs(v) && (r == 0 <==> permitted && !IsOpen(v.fds[..], i)) && (r == 0 || r == -1)
    ensures r == 0 ==> && Edges(TreeIn(v)) == old(Edges(TreeIn(v))) - {(d, c, i)}
                       && TreeIn(v).kind == old(TreeIn(v)).kind - {i} && FilesIn(v) == old(FilesIn(v)) - {i}
    ensures r == -1 ==> TreeIn(v) == old(TreeIn(v)) && FilesIn(v) == old(FilesIn(v))
  {
    hide v.Meta, Own, FreeOwnNothing, TreeOk, Exact, Dense, FdsOk, TreeOf, FilesOf, Resolve, Deletes, CleanNames, Trail,
         Join, WellPrinted, IsOpen, Edges;
    ghost var tr, files, link, depth := TreeIn(v), FilesIn(v), v.link, v.depth;
    PathRoundTrip(tr, link, depth, d, cwd);
    FileEdge(tr, link, depth, d, c, i);
    FileNames(tr, link, depth, d, c, i);
    var text := BuildPathFromInode(v, d, MAX_CMD_LEN);
    r := DeleteUnder(v, text, c, cwd, permitted);
    DeletesOne(tr, link, depth, files, v.fds[..], d, c, i, permitted, r, TreeIn(v), FilesIn(v));
  }

  lemma FileNames(tr: Tree, link: Links, depth: Depths, d: nat, c: Str, i: nat)
    requires TreeOk(tr, link, depth) && CleanNames(tr) && (d, c, i) in Edges(tr) && c != DOT && c != DOTDOT
    ensures Bare(c) && Cut(c) == c && i in link && link[i].0 == d && OwnName(tr, link, i) == c
  {
    hide TreeOk, Edges, CleanNames;
    OtherEdge(tr, link, depth, d, c, i);
    OwnNameLookup(tr, link, depth, i);
  }

  lemma DeletesOne(tr: Tree, link: Links, depth: Depths, files: map<nat, seq<byte>>, fds: seq<Fd>, d: nat, c: Str,
                   i: nat, permitted: bool, r: int, tr': Tree, files': map<nat, seq<byte>>)
    requires TreeOk(tr, link, depth) && (d, c, i) in Edges(tr) && IsFile(tr, i)
    requires Deletes(tr, files, fds, Some(d), c, permitted, r, tr', files')
    ensures r == 0 <==> permitted && !IsOpen(fds, i)
    ensures if r == 0 then Edges(tr') == Edges(tr) - {(d, c, i)} && tr'.kind == tr.kind - {i} && files' == files - {i}
            else r == -1 && tr' == tr && files' == files
  {
    hide TreeOk, Edges, IsOpen;
    forall k: nat | (d, c, k) in Edges(tr)
      ensures k == i
    {
      OneEdge(tr, link, depth, d, c, i, k);
    }
  }

  // ---- finding ----

  /** What the directory lists under the name. */
  ghost function NamedBy(tr: Tree, dir: Option<nat>, name: Str): Option<nat> {
    if dir.Some? && Listed(tr, dir.value, name) then
      var i: nat :| (dir.value, name, i) in Edges(tr);
      Some(i)
    else None
  }

  lemma NamedByIs(tr: Tree, link: Links, depth: Depths, dir: Option<nat>, name: Str, i: nat)
    requires TreeOk(tr, link, depth)
    ensures NamedBy(tr, dir, name) == Some(i) <==> dir.Some? && (dir.value, name, i) in Edges(tr)
  {
    hide TreeOk, Edges;
    var n := NamedBy(tr, dir, name);
    if dir.Some? && (dir.value, name, i) in Edges(tr) {
      OneEdge(tr, link, depth, dir.value, name, i, n.value);
    }
  }

  /** `a + "/" + c` stands for what `a` lists under `c`. */
  lemma UnderIs(tr: Tree, link: Links, depth: Depths, a: Str, c: Str, start: nat)
    requires TreeOk(tr, link, depth) && Bare(c) && c != DOT && |a| + 1 + |c| < MAX_CMD_LEN
    ensures Resolve(tr, a + [SLASH] + c, start) == NamedBy(tr, Resolve(tr, Before(a), start), c)
  {
    hide TreeOk, Resolve, NamedBy, Edges, Before;
    var r, n := Resolve(tr, a + [SLASH] + c, start), NamedBy(tr, Resolve(tr, Before(a), start), c);
    forall i: nat
      ensures r == Some(i) <==> n == Some(i)
    {
      ResolveUnder(tr, link, depth, a, c, start, i);
      NamedByIs(tr, link, depth, Resolve(tr, Before(a), start), c, i);
    }
    SameOption(r, n);
  }

  lemma SameOption(r: Option<nat>, n: Option<nat>)
    requires forall i: nat :: r == Some(i) <==> n == Some(i)
    ensures r == n
  {
    if r.Some? {
      assert r == Some(r.value);
    } else if n.Some? {
      assert n == Some(n.value);
    }
  }

  method FindUnder(v: Volume, a: Str, c: Str, start: nat) returns (r: int)
    requires Sound(v) && TreeOk(TreeIn(v), v.link, v.depth) && start in TreeIn(v).kind
    requires Bare(c) && c != DOT && |a| + 1 + |c| < MAX_CMD_LEN
    modifies v`disk, v`blockBits, v`bm, v`sb, v`gd, v`owner
    ensures var tr := old(TreeIn(v));
            var d := Resolve(tr, Before(a), start);
            forall i: nat :: r == i <==> d.Some? && (d.value, c, i) in Edges(tr)
  {
    hide v.Meta, Own, FreeOwnNothing, TreeOk, TreeOf, Resolve, Edges, FoundAs;
    ghost var tr, d := TreeIn(v), Resolve(TreeIn(v), Before(a), start);
    forall i: nat
      ensures Resolve(tr, a + [SLASH] + c, start) == Some(i) <==> d.Some? && (d.value, c, i) in Edges(tr)
    {
      ResolveUnder(tr, v.link, v.depth, a, c, start, i);
    }
    r := FindInodeByPath(v, a + [SLASH] + c, start);
  }

  /** The printed path of a directory, '/' and a name find what the directory lists under the name. */
  method FindAt(v: Volume, d: nat, c: Str, start: nat) returns (r: int)
    requires Sound(v) && TreeOk(TreeIn(v), v.link, v.depth) && CleanNames(TreeIn(v))
    requires d in TreeIn(v).ents && start in TreeIn(v).kind
    requires Bare(c) && c != DOT && |PathOf(TreeIn(v), v.link, v.depth, d)| + 1 + |c| < MAX_CMD_LEN
    modifies v`disk, v`blockBits, v`bm, v`sb, v`gd, v`owner
    ensures forall i: nat :: r == i <==> (d, c, i) in old(Edges(TreeIn(v)))
  {
    hide v.Meta, Own, FreeOwnNothing, TreeOk, TreeOf, Resolve, Edges, FoundAs, CleanNames, Trail, Join, WellPrinted;
    ghost var tr := TreeIn(v);
    PathRoundTrip(tr, v.link, v.depth, d, start);
    var text := BuildPathFromInode(v, d, MAX_CMD_LEN);
    r := FindUnder(v, text, c, start);
  }

  // ---- opening ----

  /** Opening inode `i`: exactly a permitted regular file while a descriptor is unused, on the least such. */
  ghost predicate Opens(tr: Tree, fds: seq<Fd>, i: Option<nat>, mode: Access, permitted: bool, fd: int, fds': seq<Fd>) {
    && |fds| == MAX_OPEN_FILES
    && (fd != -1 <==> && i.Some? && IsFile(tr, i.value) && permitted
                      && exists f :: 0 <= f < MAX_OPEN_FILES && !fds[f].used)
    && (if fd == -1 then fds' == fds
        else
          && 0 <= fd < MAX_OPEN_FILES && !fds[fd].used && (forall f :: 0 <= f < fd ==> fds[f].used)
          && fds' == fds[fd := Fd(true, i.value, 0, mode)])
  }

  /** What opening any path does, told by what the path stands for. */
  method OpenPath(v: Volume, path: Str, cwd: nat, mode: Access, permitted: bool) returns (fd: int)
    requires Fs(v) && cwd in TreeIn(v).kind
    modifies v`disk, v`blockBits, v`bm, v`sb, v`gd, v`owner, v.fds
    ensures Fs(v) && TreeIn(v) == old(TreeIn(v)) && FilesIn(v) == old(FilesIn(v))
    ensures Opens(TreeIn(v), old(v.fds[..]), Resolve(TreeIn(v), path, cwd), mode, permitted, fd, v.fds[..])
  {
    hide v.Meta, Own, FreeOwnNothing, TreeOk, Exact, Dense, FdsOk, TreeOf, FilesOf, Resolve;
    FdCount(v.fds[..], v.inodes, v.im);
    fd := OscdfsOpen(v, path, cwd, mode, permitted);
  }

  method OpenUnder(v: Volume, a: Str, c: Str, cwd: nat, mode: Access, permitted: bool) returns (fd: int)
    requires Fs(v) && cwd in TreeIn(v).kind && Bare(c) && c != DOT && |a| + 1 + |c| < MAX_CMD_LEN
    modifies v`disk, v`blockBits, v`bm, v`sb, v`gd, v`owner, v.fds
    ensures Fs(v) && TreeIn(v) == old(TreeIn(v)) && FilesIn(v) == old(FilesIn(v))
    ensures Opens(TreeIn(v), old(v.fds[..]), NamedBy(TreeIn(v), Resolve(TreeIn(v), Before(a), cwd), c), mode,
                  permitted, fd, v.fds[..])
  {
    hide v.Meta, Own, FreeOwnNothing, TreeOk, Exact, Dense, FdsOk, TreeOf, FilesOf, Resolve, Opens, NamedBy;
    UnderIs(TreeIn(v), v.link, v.depth, a, c, cwd);
    fd := OpenPath(v, a + [SLASH] + c, cwd, mode, permitted);
  }

  method OpenHere(v: Volume, c: Str, cwd: nat, mode: Access, permitted: bool) returns (fd: int)
    requires Fs(v) && cwd in TreeIn(v).kind && Bare(c) && c != DOT && |c| < MAX_CMD_LEN
    modifies v`disk, v`blockBits, v`bm, v`sb, v`gd, v`owner, v.fds
    ensures Fs(v) && TreeIn(v) == old(TreeIn(v)) && FilesIn(v) == old(FilesIn(v))
    ensures Opens(TreeIn(v), old(v.fds[..]), NamedBy(TreeIn(v), Some(cwd), c), mode, permitted, fd, v.fds[..])
  {
    hide v.Meta, Own, FreeOwnNothing, TreeOk, Exact, Dense, FdsOk, TreeOf, FilesOf, Resolve, Opens, NamedBy, Edges;
    ghost var tr := TreeIn(v);
    forall i: nat
      ensures Resolve(tr, c, cwd) == Some(i) <==> NamedBy(tr, Some(cwd), c) == Some(i)
    {
      ResolveName(tr, v.link, v.depth, c, cwd, i);
      NamedByIs(tr, v.link, v.depth, Some(cwd), c, i);
    }
    SameOption(Resolve(tr, c, cwd), NamedBy(tr, Some(cwd), c));
    fd := OpenPath(v, c, cwd, mode, permitted);
  }

  /** Any file is opened by the printed path of its directory, '/' and its name, from whatever current directory. */
  method OpenAt(v: Volume, d: nat, c: Str, ghost i: nat, cwd: nat, mode: Access, permitted: bool) returns (fd: int)
    requires Fs(v) && CleanNames(TreeIn(v)) && cwd in TreeIn(v).kind
    requires d in TreeIn(v).ents && (d, c, i) in Edges(TreeIn(v)) && IsFile(TreeIn(v), i)
    requires |PathOf(TreeIn(v), v.link, v.depth, d)| + 1 + |c| < MAX_CMD_LEN
    modifies v`disk, v`blockBits, v`bm, v`sb, v`gd, v`owner, v.fds
    ensures Fs(v) && TreeIn(v) == old(TreeIn(v)) && FilesIn(v) == old(FilesIn(v))
    ensures Opens(TreeIn(v), old(v.fds[..]), Some(i), mode, permitted, fd, v.fds[..])
  {
    hide v.Meta, Own, FreeOwnNothing, TreeOk, Exact, Dense, FdsOk, TreeOf, FilesOf, Resolve, Opens, CleanNames, Edges,
         Trail, Join, WellPrinted;
    FileEdge(TreeIn(v), v.link, v.depth, d, c, i);
    FileNames(TreeIn(v), v.link, v.depth, d, c, i);
    ResolveAt(TreeIn(v), v.link, v.depth, d, c, cwd, i);
    var text := BuildPathFromInode(v, d, MAX_CMD_LEN);
    fd := OpenPath(v, text + [SLASH] + c, cwd, mode, permitted);
  }

  // ---- making and removing directories ----

  /** `mkdir` of `a + "/" + c`: the answer, and the new directory with its dots. */
  method MkdirUnder(v: Volume, a: Str, c: Str, permitted: bool) returns (st: Status, ghost made: nat)
    requires Fs(v) && SLASH !in c && |a| < MAX_CMD_LEN
    modifies v
    ensures Fs(v) && FilesIn(v) == old(FilesIn(v))
    ensures var tr := old(TreeIn(v));
            var d := Resolve(tr, Before(a), ROOT_INODE);
            && MkdirAnswers(tr, d, Cut(c), permitted, Full(tr, old(v.bm)), st)
            && if st != Done then TreeIn(v) == tr
               else
                 && NextInode(tr, made) && TreeIn(v).kind == tr.kind[made := Dir]
                 && Edges(TreeIn(v))
                    == Edges(tr) + {(d.value, Cut(c), made)} + {(made, DOT, made), (made, DOTDOT, d.value)}
  {
    hide v.Meta, Own, FreeOwnNothing, TreeOk, Exact, Dense, FdsOk, TreeOf, FilesOf, AddNode, Resolve, SplitFuse, Tidy,
         NextInode, MkdirAnswers, Edges, Grow, ClearCount, Place, LastSlash, Full, MkdirCheck;
    ghost var tr, link, depth := TreeIn(v), v.link, v.depth;
    SplitFuseIs(a, c);
    LastSlashIs(a, c, a + [SLASH] + c);
    st, made := FuseMkdir(v, a + [SLASH] + c, permitted);
    if st == Done {
      MadeMeans(tr, link, depth, a + [SLASH] + c, permitted, made);
    }
  }

  lemma MadeMeans(tr: Tree, link: Links, depth: Depths, path: Str, permitted: bool, made: nat)
    requires TreeOk(tr, link, depth) && path != [] && MkdirCheck(tr, path, permitted).0 == Done && NextInode(tr, made)
    ensures var d, name := MkdirCheck(tr, path, permitted).1, SplitFuse(path).1;
            && Resolve(tr, SplitFuse(path).0, ROOT_INODE) == Some(d) && d in tr.ents
            && MkdirCheck(tr, path, permitted).2 == name
            && AddNode(tr, d, name, made, Dir).kind == tr.kind[made := Dir]
            && Edges(AddNode(tr, d, name, made, Dir))
               == Edges(tr) + {(d, name, made)} + {(made, DOT, made), (made, DOTDOT, d)}
  {
    hide TreeOk, Resolve, SplitFuse, Edges, Lookup, Added, NewDir;
    EdgesAfterAdd(tr, link, depth, MkdirCheck(tr, path, permitted).1, SplitFuse(path).1, made, Dir);
  }

  /** `rmdir` of `a + "/" + c`: the answer, and the names without the directory and its dots. */
  method RmdirUnder(v: Volume, a: Str, c: Str, permitted: bool) returns (st: Status)
    requires Fs(v) && Bare(c) && c != DOT && c != DOTDOT && |a| + 1 + |c| < MAX_CMD_LEN
    requires a == [] || a[0] == SLASH
    modifies v
    ensures Fs(v) && FilesIn(v) == old(FilesIn(v))
    ensures var tr := old(TreeIn(v));
            var d := Resolve(tr, Before(a), ROOT_INODE);
            var i := NamedBy(tr, d, c);
            && RmdirAnswers(tr, i, permitted, st)
            && if st != Done then TreeIn(v) == tr
               else
                 && TreeIn(v).kind == tr.kind - {i.value}
                 && Edges(TreeIn(v)) == Edges(tr) - {(d.value, c, i.value)}
                                        - {(i.value, DOT, i.value), (i.value, DOTDOT, d.value)}
  {
    hide v.Meta, Own, FreeOwnNothing, TreeOk, Exact, Dense, FdsOk, TreeOf, FilesOf, RemoveNode, Resolve, Tidy, DirName,
         BaseName, RmdirAnswers, Edges, LastSlash, RmdirCheck, NamedBy, ClearedBy, OwnedBy, WithoutIno;
    ghost var tr, link, depth := TreeIn(v), v.link, v.depth;
    var path := a + [SLASH] + c;
    UnderIs(tr, link, depth, a, c, ROOT_INODE);
    PartsAre(a, c);
    st := FuseRmdir(v, path, permitted);
    if st == Done {
      RemovedMeans(tr, link, depth, Resolve(tr, Before(a), ROOT_INODE), c,
                   NamedBy(tr, Resolve(tr, Before(a), ROOT_INODE), c), permitted);
    }
  }

  lemma PartsAre(a: Str, c: Str)
    requires Bare(c) && c != DOT && c != DOTDOT && |a| + 1 + |c| < MAX_CMD_LEN && (a == [] || a[0] == SLASH)
    ensures KernelPath(a + [SLASH] + c)
    ensures LastSlash(a + [SLASH] + c) >= 0 && DirName(a + [SLASH] + c) == Before(a) && BaseName(a + [SLASH] + c) == c
  {
    hide LastSlash;
    var s: Str := a + [SLASH] + c;
    LastSlashIs(a, c, s);
    assert s[0] == SLASH;
  }

  lemma RemovedMeans(tr: Tree, link: Links, depth: Depths, dir: Option<nat>, c: Str, i: Option<nat>, permitted: bool)
    requires TreeOk(tr, link, depth) && i == NamedBy(tr, dir, c) && RmdirAnswers(tr, i, permitted, Done)
    requires c != DOT && c != DOTDOT
    ensures dir.Some? && i.Some? && dir.value in tr.ents
    ensures RemoveNode(tr, dir.value, c, i.value).kind == tr.kind - {i.value}
    ensures Edges(RemoveNode(tr, dir.value, c, i.value))
            == Edges(tr) - {(dir.value, c, i.value)} - {(i.value, DOT, i.value), (i.value, DOTDOT, dir.value)}
  {
    hide TreeOk, Edges, Removed, NamedBy, OnlyDots, EmptyDir;
    NamedByIs(tr, link, depth, dir, c, if i.Some? then i.value else 0);
    DirHasEnts(tr, link, depth, i.value);
    EmptyMeans(tr, link, depth, i.value);
    EdgesAfterRemove(tr, link, depth, dir.value, c, i.value);
  }
}
