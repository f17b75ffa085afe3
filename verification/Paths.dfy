/** Path strings, and what they mean in a tree. */
module Paths {
  import opened Bytes
  import opened Layout
  import opened Entries
  import opened Namespace
  import opened Directory
  import opened Trees

  const SLASH: byte := 47
  const MAX_CMD_LEN: nat := 1024

  function TokenLen(s: seq<byte>): (n: nat)
    ensures n <= |s| && (n < |s| ==> s[n] == SLASH)
    ensures forall k :: 0 <= k < n ==> s[k] != SLASH
  {
    if s == [] || s[0] == SLASH then 0 else 1 + TokenLen(s[1..])
  }

  /** `strtok_r(path, "/")`: the maximal runs of characters other than '/'. */
  function Tokens(s: Str): seq<Str>
    decreases |s|
  {
    if s == [] then []
    else if s[0] == SLASH then Tokens(s[1..])
    else [s[..TokenLen(s)]] + Tokens(s[TokenLen(s)..])
  }

  /** One token of a path walk. */
  ghost function Walk(tr: Tree, cur: nat, tok: Str): Option<nat> {
    if tok == DOT then Some(cur)
    else if cur in tr.ents then Lookup(tr.ents[cur], tok)
    else None
  }

  ghost function WalkAll(tr: Tree, cur: nat, toks: seq<Str>): Option<nat>
    decreases |toks|
  {
    if toks == [] then Some(cur)
    else match Walk(tr, cur, toks[0])
         case None => None
         case Some(next) => WalkAll(tr, next, toks[1..])
  }

  /** `strncpy` into a path buffer. */
  function CutPath(path: Str): Str {
    if |path| < MAX_CMD_LEN then path else path[..MAX_CMD_LEN - 1]
  }

  /** The inode a path stands for, from `start` unless it begins with '/'. */
  ghost function Resolve(tr: Tree, path: Str, start: nat): Option<nat> {
    var p := CutPath(path);
    WalkAll(tr, if p != [] && p[0] == SLASH then ROOT_INODE else start, Tokens(p))
  }

  /** Index of the last '/', -1 when there is none: `strrchr`. */
  function LastSlash(s: seq<byte>): (r: int)
    ensures -1 <= r < |s|
    ensures r >= 0 ==> s[r] == SLASH
    ensures forall k :: r < k < |s| ==> s[k] != SLASH
  {
    if s == [] then -1
    else if s[|s| - 1] == SLASH then |s| - 1
    else LastSlash(s[..|s| - 1])
  }

  /** file.c `split_path`: parent directory and file name of a path. */
  function SplitPath(path: Str): (r: Option<(Str, Str)>)
    ensures r.Some? ==> 0 < |r.value.1| <= 27 && SLASH !in r.value.1
  {
    if path == [] then None
    else
      var k := LastSlash(path);
      var name: Str := Cut(path[k + 1..]);
      if k == 0 && |path| == 1 then None
      else if k >= MAX_CMD_LEN then None
      else if name == [] then None
      else Some((if k < 0 then DOT else if k == 0 then [SLASH] else path[..k], name))
  }

  lemma {:induction false} WalkAllAppend(tr: Tree, cur: nat, a: seq<Str>, b: seq<Str>)
    ensures WalkAll(tr, cur, a + b) == match WalkAll(tr, cur, a)
                                       case None => None
                                       case Some(mid) => WalkAll(tr, mid, b)
    decreases |a|
  {
    if a == [] {
      assert a + b == b;
    } else {
      assert (a + b)[1..] == a[1..] + b;
      match Walk(tr, cur, a[0])
      case None =>
      case Some(next) => WalkAllAppend(tr, next, a[1..], b);
    }
  }

  /** A walk that starts in the tree ends in the tree. */
  lemma {:induction false} WalkStays(tr: Tree, link: Links, depth: Depths, cur: nat, toks: seq<Str>)
    requires TreeOk(tr, link, depth) && cur in tr.kind
    ensures WalkAll(tr, cur, toks).Some? ==> WalkAll(tr, cur, toks).value in tr.kind
    decreases |toks|
  {
    hide TreeOk, Lookup;
    if toks != [] && Walk(tr, cur, toks[0]).Some? {
      if toks[0] != DOT {
        LookupInTree(tr, link, depth, cur, toks[0]);
      }
      WalkStays(tr, link, depth, Walk(tr, cur, toks[0]).value, toks[1..]);
    }
  }

  lemma LookupInTree(tr: Tree, link: Links, depth: Depths, d: nat, name: Str)
    requires TreeOk(tr, link, depth) && d in tr.ents
    requires Lookup(tr.ents[d], name).Some?
    ensures Lookup(tr.ents[d], name).value in tr.kind && Lookup(tr.ents[d], name).value != 0
  {
    hide Unique, DirsOk, KindsOk, LinksOk, DepthOk;
    DirFacts(tr, link, depth, d);
    DirFacts(tr, link, depth, Parent(link, d));
    var es := tr.ents[d];
    NoHit(es, name);
    var j := FirstHit(es, ByName(name), 0);
    if j >= 2 {
      assert SlotOk(link, d, j, es[j]);
      LinkFacts(tr, link, depth, es[j].ino);
    }
  }

  // ---- every directory's own path ----

  ghost predicate CleanName(name: Str) {
    name != [] && SLASH !in name && NameOk(name)
  }

  /** Names can be written in a path: nonempty and free of '/'. */
  ghost predicate CleanNames(tr: Tree) {
    forall d, j :: d in tr.ents && 2 <= j < |tr.ents[d]| && tr.ents[d][j].ino != 0 ==> CleanName(tr.ents[d][j].name)
  }

  /** The name under which inode `i` hangs in its parent. */
  ghost function OwnName(tr: Tree, link: Links, i: nat): Str {
    if i in link && link[i].0 in tr.ents && link[i].1 < |tr.ents[link[i].0]|
    then tr.ents[link[i].0][link[i].1].name
    else []
  }

  /** The names from the root down to directory `d`. */
  ghost function Trail(tr: Tree, link: Links, depth: Depths, d: nat): seq<Str>
    requires TreeOk(tr, link, depth) && d in tr.ents
    decreases if d in depth then depth[d] else 0
  {
    DirFacts(tr, link, depth, d);
    if d == ROOT_INODE then []
    else
      OwnParent(tr, link, depth, d);
      Trail(tr, link, depth, Parent(link, d)) + [OwnName(tr, link, d)]
  }

  lemma OwnNameLookup(tr: Tree, link: Links, depth: Depths, i: nat)
    requires TreeOk(tr, link, depth) && i in link
    ensures link[i].0 in tr.ents && Lookup(tr.ents[link[i].0], OwnName(tr, link, i)) == Some(i)
    ensures NameOk(OwnName(tr, link, i)) && (CleanNames(tr) ==> CleanName(OwnName(tr, link, i)))
  {
    hide Unique, DirsOk, KindsOk, LinksOk, DepthOk, Lookup;
    LinkFacts(tr, link, depth, i);
    var d, j := link[i].0, link[i].1;
    DirFacts(tr, link, depth, d);
    DirFacts(tr, link, depth, Parent(link, d));
    DirOkProper(link, d, tr.ents[d]);
    LookupFinds(tr.ents[d], j);
    assert SlotOk(link, d, j, tr.ents[d][j]);
  }

  /** Walking a directory's trail from the root leads back to it. */
  lemma {:induction false} TrailLeadsBack(tr: Tree, link: Links, depth: Depths, d: nat)
    requires TreeOk(tr, link, depth) && d in tr.ents
    ensures WalkAll(tr, ROOT_INODE, Trail(tr, link, depth, d)) == Some(d)
    decreases if d in depth then depth[d] else 0
  {
    hide TreeOk, Lookup, OwnName;
    DirFacts(tr, link, depth, d);
    if d != ROOT_INODE {
      var p := Parent(link, d);
      OwnParent(tr, link, depth, d);
      TrailLeadsBack(tr, link, depth, p);
      OwnNameLookup(tr, link, depth, d);
      WalkAllAppend(tr, ROOT_INODE, Trail(tr, link, depth, p), [OwnName(tr, link, d)]);
      WalkOne(tr, p, OwnName(tr, link, d));
    }
  }

  lemma WalkOne(tr: Tree, cur: nat, tok: Str)
    ensures WalkAll(tr, cur, [tok]) == Walk(tr, cur, tok)
  {
    hide Walk;
  }

  // ---- printing and reading back ----

  /** The names joined by '/', as `build_path_from_inode` prints them. */
  function Join(names: seq<Str>): Str {
    if names == [] then []
    else if |names| == 1 then names[0]
    else names[0] + [SLASH] + Join(names[1..])
  }

  lemma {:induction false} TokensOfName(name: Str, rest: Str)
    requires name != [] && SLASH !in name && (rest == [] || rest[0] == SLASH)
    ensures Tokens(name + rest) == [name] + Tokens(rest)
  {
    TokenLenOf(name, rest);
    assert (name + rest)[0] in name;
  }

  lemma {:induction false} TokenLenOf(name: Str, rest: Str)
    requires SLASH !in name && (rest == [] || rest[0] == SLASH)
    ensures TokenLen(name + rest) == |name|
    ensures (name + rest)[..|name|] == name && (name + rest)[|name|..] == rest
  {
    if name == [] {
      assert name + rest == rest;
    } else {
      assert (name + rest)[1..] == name[1..] + rest;
      assert (name + rest)[0] in name;
      TokenLenOf(name[1..], rest);
    }
  }

  /** Splitting a joined path at the slashes gives the names back. */
  lemma {:induction false} TokensOfJoin(names: seq<Str>)
    requires forall i :: 0 <= i < |names| ==> names[i] != [] && SLASH !in names[i]
    ensures Tokens(Join(names)) == names
  {
    if names == [] {
    } else if |names| == 1 {
      assert names[0] + [] == names[0];
      TokensOfName(names[0], []);
    } else {
      var rest: Str := [SLASH] + Join(names[1..]);
      assert Join(names) == names[0] + rest;
      TokensOfName(names[0], rest);
      assert rest[1..] == Join(names[1..]);
      TokensOfJoin(names[1..]);
    }
  }

  lemma {:induction false} TrailClean(tr: Tree, link: Links, depth: Depths, d: nat)
    requires TreeOk(tr, link, depth) && d in tr.ents && CleanNames(tr)
    ensures forall i :: 0 <= i < |Trail(tr, link, depth, d)| ==> CleanName(Trail(tr, link, depth, d)[i])
    ensures d in depth && |Trail(tr, link, depth, d)| == depth[d]
    decreases if d in depth then depth[d] else 0
  {
    hide TreeOk, Lookup, OwnName, CleanNames, CleanName;
    DirFacts(tr, link, depth, d);
    RootDepth(tr, link, depth);
    if d != ROOT_INODE {
      OwnParent(tr, link, depth, d);
      TrailClean(tr, link, depth, Parent(link, d));
      OwnNameLookup(tr, link, depth, d);
    }
  }

  lemma RootDepth(tr: Tree, link: Links, depth: Depths)
    requires TreeOk(tr, link, depth)
    ensures ROOT_INODE in depth && depth[ROOT_INODE] == 0 && ROOT_INODE in tr.ents && ROOT_INODE in tr.kind
  {
    hide LinksOk, DirsOk;
  }

  function AbsolutePath(names: seq<Str>): Str {
    [SLASH] + Join(names)
  }

  /** Path round trip: the printed path of any directory resolves to that directory, wherever the
      resolution starts. */
  lemma PathRoundTrip(tr: Tree, link: Links, depth: Depths, d: nat, start: nat)
    requires TreeOk(tr, link, depth) && CleanNames(tr) && d in tr.ents
    requires |AbsolutePath(Trail(tr, link, depth, d))| < MAX_CMD_LEN
    ensures Resolve(tr, AbsolutePath(Trail(tr, link, depth, d)), start) == Some(d)
  {
    hide TreeOk, Lookup, OwnName, CleanNames, Trail, Join;
    var names := Trail(tr, link, depth, d);
    TrailClean(tr, link, depth, d);
    TokensOfJoin(names);
    TrailLeadsBack(tr, link, depth, d);
    var p := AbsolutePath(names);
    assert p[1..] == Join(names);
    assert Tokens(p) == names;
  }

  // ---- names stay printable ----

  lemma AddClean(tr: Tree, link: Links, depth: Depths, d: nat, name: Str, i: nat, k: Kind)
    requires TreeOk(tr, link, depth) && d in tr.ents && 2 <= i < TOTAL_INODES && i !in tr.kind
    requires CleanNames(tr) && CleanName(name)
    ensures CleanNames(AddNode(tr, d, name, i, k))
  {
    hide TreeOk, CleanName, Added, FirstHit;
    RoomForEntry(tr, link, depth, d, i);
    AddedAtFree(tr.ents[d], Entry(i, name));
  }

  lemma RemoveClean(tr: Tree, d: nat, name: Str, i: nat)
    requires CleanNames(tr) && d in tr.ents
    ensures CleanNames(RemoveNode(tr, d, name, i))
  {
    hide CleanName, Lookup;
    var es := Removed(tr.ents[d], name);
    forall j | 2 <= j < |es| && es[j].ino != 0
      ensures CleanName(es[j].name)
    {
      assert es[j] == tr.ents[d][j];
    }
  }

  // ---- a path and its last component ----

  lemma {:induction false} TokensOfLast(p: Str, c: Str)
    requires c != [] && SLASH !in c
    ensures Tokens(p + [SLASH] + c) == Tokens(p) + [c]
    decreases |p|
  {
    var s: Str := p + [SLASH] + c;
    if p == [] {
      assert s[1..] == c + [];
      TokensOfName(c, []);
    } else if p[0] == SLASH {
      assert s[1..] == p[1..] + [SLASH] + c;
      TokensOfLast(p[1..], c);
    } else {
      var n := TokenLen(p);
      TokenLenWith(p, [SLASH] + c);
      assert s == p + ([SLASH] + c);
      assert s[..n] == p[..n] && s[n..] == p[n..] + [SLASH] + c;
      TokensOfLast(p[n..], c);
    }
  }

  lemma {:induction false} TokenLenWith(p: Str, rest: Str)
    requires rest != [] && rest[0] == SLASH
    ensures TokenLen(p + rest) == TokenLen(p)
  {
    if p == [] {
      assert p + rest == rest;
    } else {
      assert (p + rest)[0] == p[0];
      assert (p + rest)[1..] == p[1..] + rest;
      TokenLenWith(p[1..], rest);
    }
  }

  /** Everything before the last '/', "/" itself when that is the first character. */
  function DirName(path: Str): Str
    requires LastSlash(path) >= 0
  {
    var k := LastSlash(path);
    if k == 0 then [SLASH] else path[..k]
  }

  function BaseName(path: Str): Str {
    path[LastSlash(path) + 1..]
  }

  lemma TokensOfPath(path: Str)
    requires LastSlash(path) >= 0 && BaseName(path) != []
    ensures DirName(path) != [] && |DirName(path)| <= |path| && (DirName(path)[0] == SLASH <==> path[0] == SLASH)
    ensures Tokens(path) == Tokens(DirName(path)) + [BaseName(path)]
  {
    hide LastSlash, Tokens;
    var k, c := LastSlash(path), BaseName(path);
    var p: Str := path[..k];
    assert path == p + [SLASH] + c;
    TokensOfLast(p, c);
    if k == 0 {
      TokensOfSlash();
      assert p == [];
    }
  }

  lemma TokensOfSlash()
    ensures Tokens([SLASH]) == [] && Tokens([]) == []
  {
    var s: Str := [SLASH];
    assert s[1..] == [];
  }

  /** Resolving a path is resolving its directory part and looking its last component up there. */
  lemma ResolveLast(tr: Tree, path: Str, start: nat)
    requires |path| < MAX_CMD_LEN && LastSlash(path) >= 0 && BaseName(path) != []
    ensures Resolve(tr, path, start) == match Resolve(tr, DirName(path), start)
                                        case None => None
                                        case Some(d) => Walk(tr, d, BaseName(path))
  {
    hide Walk, LastSlash, Tokens, DirName, BaseName, WalkAll;
    var c := BaseName(path);
    TokensOfPath(path);
    var from := if path[0] == SLASH then ROOT_INODE else start;
    WalkAllAppend(tr, from, Tokens(DirName(path)), [c]);
    var mid := WalkAll(tr, from, Tokens(DirName(path)));
    if mid.Some? {
      WalkOne(tr, mid.value, c);
    }
  }

  /** The same for the split of `split_path`, which also knows bare names. */
  lemma ResolveSplit(tr: Tree, path: Str, start: nat)
    requires SplitPath(path).Some? && |path| < MAX_CMD_LEN
    ensures var (dir, name) := SplitPath(path).value;
            && name == Cut(BaseName(path))
            && Resolve(tr, path, start) == match Resolve(tr, dir, start)
                                           case None => None
                                           case Some(d) => Walk(tr, d, BaseName(path))
  {
    hide Walk, LastSlash, Tokens, WalkAll;
    if LastSlash(path) >= 0 {
      ResolveLast(tr, path, start);
    } else {
      assert path[0..] == path && path[0] != SLASH;
      TokensOfBare(path);
      TokensOfBare(DOT);
      WalkOne(tr, start, path);
      WalkOne(tr, start, DOT);
      WalkDot(tr, start);
    }
  }

  lemma TokensOfBare(c: Str)
    requires c != [] && SLASH !in c
    ensures Tokens(c) == [c]
  {
    assert c + [] == c;
    TokensOfName(c, []);
  }

  lemma WalkDot(tr: Tree, cur: nat)
    ensures Walk(tr, cur, DOT) == Some(cur)
  {
  }

  /** A path that resolves still resolves to the same inode after a new name has been added. */
  lemma {:induction false} WalkAfterAdd(tr: Tree, link: Links, depth: Depths, d: nat, name: Str, i: nat, k: Kind,
                                       cur: nat, toks: seq<Str>)
    requires TreeOk(tr, link, depth) && d in tr.ents && 2 <= i < TOTAL_INODES && i !in tr.kind
    requires NameOk(name) && Lookup(tr.ents[d], name) == None
    requires WalkAll(tr, cur, toks).Some?
    ensures WalkAll(AddNode(tr, d, name, i, k), cur, toks) == WalkAll(tr, cur, toks)
    decreases |toks|
  {
    hide TreeOk, Lookup, AddNode, NameOk;
    if toks != [] {
      AddNodeLookup(tr, link, depth, d, name, i, k, toks[0]);
      WalkAfterAdd(tr, link, depth, d, name, i, k, Walk(tr, cur, toks[0]).value, toks[1..]);
    }
  }
}
