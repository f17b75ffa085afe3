/** Calls on a freshly formatted volume, with their paths and answers written out. */
module FormatWitnesses {
  import opened Bytes
  import opened Layout
  import opened BlockMap
  import opened Volumes
  import opened ReleaseBlocks
  import opened Space
  import opened Invariants
  import opened Entries
  import opened Trees
  import opened Listing
  import opened Paths
  import opened PathLaws
  import opened Filesystem
  import opened FileOps
  import opened Directories
  import opened BuildPath
  import opened PathOps
  import opened Mkfs
  import opened Steps
  import opened Runs

  /** The directories of a formatted volume, with at most one more name. */
  ghost predicate AsFormatted(tr: Tree, more: set<(nat, Str, nat)>, kind: map<nat, Kind>) {
    && Edges(tr) == FormattedEdges() + more
    && tr.kind == map[1 := Dir, 2 := Dir, 3 := Dir, 4 := Dir, 5 := Dir, 6 := Dir] + kind
  }

  // "home", "root", "oscd", "pyc"
  const H: Str := [104, 111, 109, 101]
  const R: Str := [114, 111, 111, 116]
  const O: Str := [111, 115, 99, 100]
  const P: Str := [112, 121, 99]
  // "f", "x", "y", "notes.txt"
  const F: Str := [102]
  const X: Str := [120]
  const Y: Str := [121]
  const N: Str := [110, 111, 116, 101, 115, 46, 116, 120, 116]

  // "/home", "/home/pyc", "/home/oscd", "/x", "/x/y", "/home/x"
  const SLASH_HOME: Str := [47, 104, 111, 109, 101]
  const HOME_PYC: Str := [47, 104, 111, 109, 101, 47, 112, 121, 99]
  const HOME_OSCD: Str := [47, 104, 111, 109, 101, 47, 111, 115, 99, 100]
  const SLASH_X: Str := [47, 120]
  const X_Y: Str := [47, 120, 47, 121]
  const HOME_X: Str := [47, 104, 111, 109, 101, 47, 120]

  // "/f", "/f/y", "/home/oscd/notes.txt", "/home/root"
  const SLASH_F: Str := [47, 102]
  const F_Y: Str := [47, 102, 47, 121]
  const NOTES: Str := [47, 104, 111, 109, 101, 47, 111, 115, 99, 100, 47, 110, 111, 116, 101, 115, 46, 116, 120, 116]
  const HOME_ROOT: Str := [47, 104, 111, 109, 101, 47, 114, 111, 111, 116]

  lemma WhatIsThere(tr: Tree, more: set<(nat, Str, nat)>, kind: map<nat, Kind>)
    requires AsFormatted(tr, more, kind)
    ensures (1, H, 2) in Edges(tr) && (2, R, 3) in Edges(tr) && (2, O, 4) in Edges(tr) && (2, P, 5) in Edges(tr)
  {
    hide Edges;
  }

  lemma WhatIsNot(tr: Tree, more: set<(nat, Str, nat)>, kind: map<nat, Kind>)
    requires AsFormatted(tr, more, kind)
    ensures forall d: nat, n: Str :: (n == F || n == X || n == Y || n == N) && Listed(tr, d, n) ==>
              exists i: nat :: (d, n, i) in more
    ensures forall n: Str :: Listed(tr, 5, n) ==> n == DOT || n == DOTDOT || exists i: nat :: (5, n, i) in more
  {
    hide Edges;
  }

  /** One name further down a path. */
  lemma Down(tr: Tree, link: Links, depth: Depths, path: Str, a: Str, c: Str, start: nat, d: nat, i: nat)
    requires TreeOk(tr, link, depth) && path == a + [SLASH] + c && Bare(c) && c != DOT && |path| < MAX_CMD_LEN
    requires Resolve(tr, Before(a), start) == Some(d)
    ensures (d, c, i) in Edges(tr) ==> Resolve(tr, path, start) == Some(i)
    ensures !Listed(tr, d, c) ==> Resolve(tr, path, start) == None
  {
    hide TreeOk, Edges, Resolve;
    ResolveUnder(tr, link, depth, a, c, start, i);
    var r := Resolve(tr, path, start);
    if r.Some? {
      ResolveUnder(tr, link, depth, a, c, start, r.value);
    }
  }

  /** "/home" and "/home/pyc" stand for 2 and 5, "/x" for nothing. */
  lemma Known(tr: Tree, link: Links, depth: Depths, more: set<(nat, Str, nat)>, kind: map<nat, Kind>, start: nat)
    requires TreeOk(tr, link, depth) && AsFormatted(tr, more, kind)
    ensures Resolve(tr, [SLASH], start) == Some(1) && Resolve(tr, SLASH_HOME, start) == Some(2)
    ensures Resolve(tr, HOME_PYC, start) == Some(5) && Resolve(tr, HOME_OSCD, start) == Some(4)
    ensures !Listed(tr, 1, X) ==> Resolve(tr, SLASH_X, start) == None
  {
    hide TreeOk, Edges, Resolve;
    WhatIsThere(tr, more, kind);
    RootPath(tr, start);
    PathsAre();
    Down(tr, link, depth, SLASH_HOME, [], H, start, 1, 2);
    Down(tr, link, depth, HOME_PYC, SLASH_HOME, P, start, 2, 5);
    Down(tr, link, depth, HOME_OSCD, SLASH_HOME, O, start, 2, 4);
    Down(tr, link, depth, SLASH_X, [], X, start, 1, 0);
  }

  lemma PathsAre()
    ensures SLASH_HOME == [] + [SLASH] + H && HOME_PYC == SLASH_HOME + [SLASH] + P
    ensures HOME_OSCD == SLASH_HOME + [SLASH] + O && SLASH_X == [] + [SLASH] + X
    ensures X_Y == SLASH_X + [SLASH] + Y && HOME_X == SLASH_HOME + [SLASH] + X
    ensures SLASH !in H && SLASH !in P && SLASH !in O && SLASH !in X && SLASH !in Y
    ensures |HOME_OSCD| < MAX_CMD_LEN && |HOME_PYC| < MAX_CMD_LEN
  {
  }

  lemma NotFull(tr: Tree, bm: seq<bool>, more: set<(nat, Str, nat)>, kind: map<nat, Kind>)
    requires AsFormatted(tr, more, kind) && 20 !in kind && ClearCount(bm) > 0
    ensures !Full(tr, bm)
  {
    hide Edges, ClearCount;
    ClearCountZero(bm);
    assert 20 !in tr.kind;
  }

  lemma Parts(path: Str, a: Str, c: Str)
    requires path == a + [SLASH] + c && SLASH !in c && |a| < MAX_CMD_LEN
    ensures path != [] && LastSlash(path) < MAX_CMD_LEN && SplitFuse(path) == (Before(a), Cut(c))
  {
    hide LastSlash, SplitFuse;
    LastSlashIs(a, c, path);
    SplitFuseIs(a, c);
  }

  method Format(v: Volume)
    requires FdsOk(v.fds[..], [], [])
    modifies v
    ensures Fs(v) && CleanNames(TreeIn(v)) && AsFormatted(TreeIn(v), {}, map[]) && FilesIn(v) == map[]
    ensures ClearCount(v.bm) == 2032
  {
    hide v.Meta, Own, FreeOwnNothing, TreeOk, Exact, Dense, FdsOk, TreeOf, FilesOf, CleanNames, HomesMade, ClearCount,
         Edges, FormattedEdges;
    var r, home := MkfsDisk(v);
    GroupCounts(v);
  }

  /** mkdir of "/home" is EEXIST, of "/x/y" ENOENT, of "/home/x" without permission EACCES, with it Done. */
  method MkdirAfterFormat(v: Volume) returns (s1: Status, s2: Status, s3: Status, s4: Status, ghost made: nat)
    requires FdsOk(v.fds[..], [], [])
    modifies v
    ensures Fs(v) && s1 == EEXIST && s2 == ENOENT && s3 == EACCES && s4 == Done && made == 7
    ensures Edges(TreeIn(v)) == FormattedEdges() + {(2, [120], 7), (7, [46], 7), (7, [46, 46], 2)}
  {
    hide v.Meta, Own, FreeOwnNothing, TreeOk, Exact, Dense, FdsOk, TreeOf, FilesOf, CleanNames, ClearCount, Edges,
         FormattedEdges, Resolve, MkdirCheck, Full, AddNode, Place, Grow, Tidy, LastSlash, SplitFuse;
    Format(v);
    ghost var tr, link, depth := TreeIn(v), v.link, v.depth;
    WhatIsThere(tr, {}, map[]);
    WhatIsNot(tr, {}, map[]);
    Known(tr, link, depth, {}, map[], 1);
    NotFull(tr, v.bm, {}, map[]);
    PathsAre();
    ghost var m;
    Parts(SLASH_HOME, [], H);
    s1, m := FuseMkdir(v, SLASH_HOME, true);
    Parts(X_Y, SLASH_X, Y);
    s2, m := FuseMkdir(v, X_Y, true);
    Parts(HOME_X, SLASH_HOME, X);
    s3, m := FuseMkdir(v, HOME_X, false);
    s4, made := MkdirUnder(v, SLASH_HOME, X, true);
    NextIsSeven(tr, made);
  }

  lemma NextIsSeven(tr: Tree, i: int)
    requires AsFormatted(tr, {}, map[]) && NextInode(tr, i)
    ensures i == 7
  {
    hide Edges;
    assert 7 !in tr.kind;
  }

  lemma FilePathsAre()
    ensures SLASH_F == [] + [SLASH] + F && F_Y == SLASH_F + [SLASH] + Y && NOTES == HOME_OSCD + [SLASH] + N
    ensures SLASH !in F && SLASH !in Y && SLASH !in N && HOME_ROOT == SLASH_HOME + [SLASH] + R
    ensures Bare(F) && Bare(Y) && Bare(N) && F != DOT && Y != DOT && N != DOT
  {
  }

  /** A file created on the formatted volume gets inode 7 and is the only addition. */
  lemma SevenAdded(tr: Tree, files: map<nat, seq<byte>>, d: nat, name: Str, r: int, tr': Tree,
                   files': map<nat, seq<byte>>)
    requires AsFormatted(tr, {}, map[]) && Creates(tr, files, Some(d), name, true, r, tr', files')
    requires !Listed(tr, d, name) && 1 <= d <= 6
    ensures r == 7 && AsFormatted(tr', {(d, name, 7)}, map[7 := File])
  {
    hide Edges, Listed, FormattedEdges;
    assert 7 !in tr.kind;
  }

  /** Formats the volume and creates "/f". */
  method FileAtRoot(v: Volume) returns (r: int)
    requires FdsOk(v.fds[..], [], [])
    modifies v
    ensures Fs(v) && r == 7 && AsFormatted(TreeIn(v), {(1, F, 7)}, map[7 := File]) && FilesIn(v) == map[7 := []]
  {
    hide v.Meta, Own, FreeOwnNothing, TreeOk, Exact, Dense, FdsOk, TreeOf, FilesOf, CleanNames, Edges, FormattedEdges,
         Resolve, Creates;
    Format(v);
    ghost var tr, files := TreeIn(v), FilesIn(v);
    WhatIsNot(tr, {}, map[]);
    RootLive(tr, v.link, v.depth);
    FilePathsAre();
    RootPath(tr, 1);
    r := CreateUnder(v, [], F, 1, true);
    SevenAdded(tr, files, 1, F, r, TreeIn(v), FilesIn(v));
    CreatedFiles(tr, files, Some(1), F, r, TreeIn(v), FilesIn(v));
  }

  lemma KnownFile(tr: Tree, link: Links, depth: Depths)
    requires TreeOk(tr, link, depth) && AsFormatted(tr, {(1, F, 7)}, map[7 := File])
    ensures Resolve(tr, SLASH_HOME, 1) == Some(2) && Resolve(tr, SLASH_X, 1) == None
    ensures Resolve(tr, SLASH_F, 1) == Some(7)
    ensures IsDir(tr, 2) && IsFile(tr, 7)
  {
    hide TreeOk, Edges, FormattedEdges, Resolve;
    PathsAre();
    FilePathsAre();
    Known(tr, link, depth, {(1, F, 7)}, map[7 := File], 1);
    WhatIsNot(tr, {(1, F, 7)}, map[7 := File]);
    assert (1, F, 7) in Edges(tr);
    Down(tr, link, depth, SLASH_F, [], F, 1, 1, 7);
  }

  /** After the creation of "/f", mkdir of "/f/y" and rmdir of "/f" are ENOTDIR. */
  method FileAfterFormat(v: Volume) returns (r: int, s1: Status, s2: Status)
    requires FdsOk(v.fds[..], [], [])
    modifies v
    ensures Fs(v) && r == 7 && Edges(TreeIn(v)) == FormattedEdges() + {(1, [102], 7)} && FilesIn(v) == map[7 := []]
    ensures s1 == ENOTDIR && s2 == ENOTDIR
  {
    hide v.Meta, Own, FreeOwnNothing, TreeOk, Exact, Dense, FdsOk, TreeOf, FilesOf, ClearCount, Edges, FormattedEdges,
         Resolve, MkdirCheck, Full, AddNode, RemoveNode, Place, Grow, Tidy, LastSlash, SplitFuse, RmdirCheck,
         KernelPath, DirName, BaseName, ClearedBy, OwnedBy, WithoutIno, OnlyDots, Listed;
    r := FileAtRoot(v);
    FilePathsAre();
    KnownFile(TreeIn(v), v.link, v.depth);
    ghost var m;
    Parts(F_Y, SLASH_F, Y);
    s1, m := FuseMkdir(v, F_Y, true);
    PartsAre([], F);
    s2 := FuseRmdir(v, SLASH_F, true);
  }

  /** Opened through FUSE after the creation of "/f", "/home" is EISDIR, "/x" ENOENT, "/f" without permission EACCES and
      with it Done. */
  method OpenAfterFormat(v: Volume) returns (s1: Status, s2: Status, s3: Status, s4: Status, handle: nat)
    requires FdsOk(v.fds[..], [], [])
    modifies v
    ensures Fs(v) && s1 == EISDIR && s2 == ENOENT && s3 == EACCES && s4 == Done && handle == 7
  {
    hide v.Meta, Own, FreeOwnNothing, TreeOk, Exact, Dense, FdsOk, TreeOf, FilesOf, ClearCount, Edges, FormattedEdges,
         Resolve, FuseOpenCheck, AsFormatted, IsDir, IsFile;
    var r := FileAtRoot(v);
    KnownFile(TreeIn(v), v.link, v.depth);
    FileIsNoDir(TreeIn(v), 7);
    FileIsNoDir(TreeIn(v), 2);
    var h;
    s1, h := FuseOpen(v, SLASH_HOME, true);
    s2, h := FuseOpen(v, SLASH_X, true);
    s3, h := FuseOpen(v, SLASH_F, false);
    s4, handle := FuseOpen(v, SLASH_F, true);
  }

  lemma FileIsNoDir(tr: Tree, i: nat)
    ensures !(IsFile(tr, i) && IsDir(tr, i))
  {
  }

  lemma RootLive(tr: Tree, link: Links, depth: Depths)
    requires TreeOk(tr, link, depth)
    ensures 1 in tr.kind
  {
    hide TreeOk;
    RootDepth(tr, link, depth);
  }

  lemma CreatedFiles(tr: Tree, files: map<nat, seq<byte>>, d: Option<nat>, name: Str, r: int, tr': Tree,
                     files': map<nat, seq<byte>>)
    requires Creates(tr, files, d, name, true, r, tr', files') && r != -1
    ensures r >= 0 && files' == files[r := []]
  {
    hide Edges, Listed;
  }

  /** rmdir of "/home" is ENOTEMPTY, of "/x" ENOENT, of "/home/pyc" without permission EACCES, with it Done. */
  method RmdirAfterFormat(v: Volume) returns (s1: Status, s2: Status, s3: Status, s4: Status)
    requires FdsOk(v.fds[..], [], [])
    modifies v
    ensures Fs(v) && s1 == ENOTEMPTY && s2 == ENOENT && s3 == EACCES && s4 == Done
    ensures Edges(TreeIn(v)) == FormattedEdges() - {(2, [112, 121, 99], 5), (5, [46], 5), (5, [46, 46], 2)}
  {
    hide v.Meta, Own, FreeOwnNothing, TreeOk, Exact, Dense, FdsOk, TreeOf, FilesOf, CleanNames, ClearCount, Edges,
         FormattedEdges, Resolve, RemoveNode, Tidy, LastSlash, RmdirCheck, KernelPath, DirName, BaseName, ClearedBy,
         OwnedBy, WithoutIno, NamedBy, Listed;
    Format(v);
    ghost var tr, link, depth := TreeIn(v), v.link, v.depth;
    Known(tr, link, depth, {}, map[], 1);
    Emptiness(tr);
    PathsAre();
    PartsAre([], H);
    PartsAre([], X);
    PartsAre(SLASH_HOME, P);
    s1 := FuseRmdir(v, SLASH_HOME, true);
    s2 := FuseRmdir(v, SLASH_X, true);
    s3 := FuseRmdir(v, HOME_PYC, false);
    NamedByIs(tr, link, depth, Some(2), P, 5);
    s4 := RmdirUnder(v, SLASH_HOME, P, true);
  }

  /** /home is not empty, /home/pyc is; there is no "x". */
  lemma Emptiness(tr: Tree)
    requires AsFormatted(tr, {}, map[])
    ensures !OnlyDots(tr, 2) && OnlyDots(tr, 5) && !Listed(tr, 1, X) && (2, P, 5) in Edges(tr)
  {
    hide Edges;
    WhatIsThere(tr, {}, map[]);
    WhatIsNot(tr, {}, map[]);
    assert Listed(tr, 2, P);
  }

  // ---- creating and finding by longer paths, relative paths and the printed path ----

  /** "/home/oscd/notes.txt", created with /home/root as current directory, is inode 7 and stands in /home/oscd; so does
      its path. */
  method NotesAfterFormat(v: Volume) returns (r: int)
    requires FdsOk(v.fds[..], [], [])
    modifies v
    ensures Fs(v) && r == 7 && AsFormatted(TreeIn(v), {(4, N, 7)}, map[7 := File]) && FilesIn(v) == map[7 := []]
    ensures Resolve(TreeIn(v), NOTES, 3) == Some(7) && IsFile(TreeIn(v), 7)
    ensures Resolve(TreeIn(v), HOME_OSCD, 3) == Some(4) && 3 in TreeIn(v).kind
  {
    hide v.Meta, Own, FreeOwnNothing, TreeOk, Exact, Dense, FdsOk, TreeOf, FilesOf, CleanNames, Edges, FormattedEdges,
         Resolve, Creates;
    Format(v);
    ghost var tr, files := TreeIn(v), FilesIn(v);
    WhatIsNot(tr, {}, map[]);
    FilePathsAre();
    Known(tr, v.link, v.depth, {}, map[], 3);
    r := CreateUnder(v, HOME_OSCD, N, 3, true);
    SevenAdded(tr, files, 4, N, r, TreeIn(v), FilesIn(v));
    CreatedFiles(tr, files, Some(4), N, r, TreeIn(v), FilesIn(v));
    Known(TreeIn(v), v.link, v.depth, {(4, N, 7)}, map[7 := File], 3);
    NowNamed(TreeIn(v), 4, N);
    Down(TreeIn(v), v.link, v.depth, NOTES, HOME_OSCD, N, 3, 4, 7);
  }

  lemma NowNamed(tr: Tree, d: nat, name: Str)
    requires AsFormatted(tr, {(d, name, 7)}, map[7 := File])
    ensures (d, name, 7) in Edges(tr)
  {
    hide Edges, FormattedEdges;
  }

  /** The path then finds the file and opens it on descriptor 0; while it is open it cannot be deleted. */
  method NotesInUse(v: Volume) returns (r: int, found: int, fd: int, gone: int)
    requires FdsOk(v.fds[..], [], [])
    modifies v, v.fds
    ensures Fs(v) && r == 7 && found == 7 && fd == 0 && gone == -1
    ensures v.fds.Length == MAX_OPEN_FILES && v.fds[0] == Fd(true, 7, 0, ReadWrite)
  {
    hide v.Meta, Own, FreeOwnNothing, TreeOk, Exact, Dense, FdsOk, TreeOf, FilesOf, AsFormatted, Resolve, Deletes,
         IsFile, FoundAs;
    NoneUsed(v.fds[..]);
    r := NotesAfterFormat(v);
    found := FindInodeByPath(v, NOTES, 3);
    fd := OpenPath(v, NOTES, 3, ReadWrite, true);
    ghost var tr, files := TreeIn(v), FilesIn(v);
    FilePathsAre();
    gone := DeleteUnder(v, HOME_OSCD, N, 3, true);
    assert v.fds[..][0].used && v.fds[..][0].ino == 7;
    OpenBlocks(tr, files, v.fds[..], gone, TreeIn(v), FilesIn(v));
  }

  lemma OpenBlocks(tr: Tree, files: map<nat, seq<byte>>, fds: seq<Fd>, r: int, tr': Tree, files': map<nat, seq<byte>>)
    requires AsFormatted(tr, {(4, N, 7)}, map[7 := File]) && IsOpen(fds, 7)
    requires Deletes(tr, files, fds, Some(4), N, true, r, tr', files')
    ensures r == -1
  {
    hide Edges, IsOpen;
    forall i: nat | (4, N, i) in Edges(tr)
      ensures i == 7
    {
    }
  }

  lemma NoneUsed(fds: seq<Fd>)
    requires FdsOk(fds, [], [])
    ensures |fds| == MAX_OPEN_FILES && forall f :: 0 <= f < |fds| ==> !fds[f].used
  {
  }

  /** The bare name "f", created with /home/root as current directory, stands in /home/root. */
  method HereAfterFormat(v: Volume) returns (r: int)
    requires FdsOk(v.fds[..], [], [])
    modifies v
    ensures Fs(v) && r == 7 && AsFormatted(TreeIn(v), {(3, F, 7)}, map[7 := File])
  {
    hide v.Meta, Own, FreeOwnNothing, TreeOk, Exact, Dense, FdsOk, TreeOf, FilesOf, CleanNames, Edges, FormattedEdges,
         Creates, Listed;
    Format(v);
    ghost var tr, files := TreeIn(v), FilesIn(v);
    FIsNew(tr);
    FilePathsAre();
    r := CreateHere(v, F, 3, true);
    SevenAdded(tr, files, 3, F, r, TreeIn(v), FilesIn(v));
  }

  /** It is then found from there, not from the root; "." and ".." from there are /home/root and /home. */
  method FoundHere(v: Volume) returns (here: int, root: int, dot: int, up: int)
    requires FdsOk(v.fds[..], [], [])
    modifies v
    ensures here == 7 && root == -1 && dot == 3 && up == 2
  {
    hide v.Meta, Own, FreeOwnNothing, TreeOk, Exact, Dense, FdsOk, TreeOf, FilesOf, Edges, AsFormatted, Resolve;
    var _ := HereAfterFormat(v);
    ghost var tr := TreeIn(v);
    FilePathsAre();
    FInRoot(tr, v.link, v.depth);
    here := FindInodeByPath(v, F, 3);
    root := FindInodeByPath(v, F, 1);
    assert root < 0 || (1, F, root) !in Edges(tr);
    dot := FindInodeByPath(v, DOT, 3);
    up := FindInodeByPath(v, DOTDOT, 3);
  }

  lemma FIsNew(tr: Tree)
    requires AsFormatted(tr, {}, map[])
    ensures !Listed(tr, 3, F) && 3 in tr.kind
  {
    hide Edges;
    WhatIsNot(tr, {}, map[]);
  }

  lemma FInRoot(tr: Tree, link: Links, depth: Depths)
    requires TreeOk(tr, link, depth) && AsFormatted(tr, {(3, F, 7)}, map[7 := File])
    ensures (3, F, 7) in Edges(tr) && (forall i: nat :: (1, F, i) !in Edges(tr))
    ensures 1 in tr.kind && 3 in tr.kind && 3 in tr.ents && Parent(link, 3) == 2
  {
    hide Edges, TreeOk;
    NowNamed(tr, 3, F);
    DirHasEnts(tr, link, depth, 3);
    DotEdges(tr, link, depth, 3, 2);
  }

  /** `pwd` in /home/root prints "/home/root", in the root "/"; a buffer of 8 bytes holds "/home/r". */
  method PwdAfterFormat(v: Volume) returns (root: Str, home: Str, user: Str, cut: Str)
    requires FdsOk(v.fds[..], [], [])
    modifies v
    ensures Fs(v) && root == [47] && home == SLASH_HOME && user == HOME_ROOT
    ensures cut == [47, 104, 111, 109, 101, 47, 114]
  {
    hide v.Meta, Own, FreeOwnNothing, TreeOk, Exact, Dense, FdsOk, TreeOf, FilesOf, CleanNames, Edges, FormattedEdges,
         PathOf, WellPrinted;
    Format(v);
    Printed(TreeIn(v), v.link, v.depth);
    root := BuildPathFromInode(v, 1, 1024);
    home := BuildPathFromInode(v, 2, 1024);
    user := BuildPathFromInode(v, 3, 1024);
    cut := BuildPathFromInode(v, 3, 8);
  }

  lemma Printed(tr: Tree, link: Links, depth: Depths)
    requires TreeOk(tr, link, depth) && AsFormatted(tr, {}, map[])
    ensures 1 in tr.ents && 2 in tr.ents && 3 in tr.ents
    ensures PathOf(tr, link, depth, 2) == SLASH_HOME && PathOf(tr, link, depth, 3) == HOME_ROOT
  {
    hide TreeOk, Edges, FormattedEdges, PathOf;
    WhatIsThere(tr, {}, map[]);
    DirHasEnts(tr, link, depth, 1);
    DirHasEnts(tr, link, depth, 2);
    DirHasEnts(tr, link, depth, 3);
    PathsAre();
    FilePathsAre();
    PathOfChild(tr, link, depth, 1, H, 2);
    PathOfChild(tr, link, depth, 2, R, 3);
  }
}
