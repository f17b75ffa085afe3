/** What path resolution and printed paths mean, told by the names in the tree alone. */
module PathLaws {
  import opened Bytes
  import opened Layout
  import opened Entries
  import opened Trees
  import opened Listing
  import opened Paths

  // ---- resolution ----

  /** A single name without '/'. */
  predicate Bare(c: Str) {
    c != [] && SLASH !in c
  }

  /** Nothing, and ".", stand for the start. */
  lemma ResolveNothing(tr: Tree, start: nat)
    ensures Resolve(tr, [], start) == Some(start) && Resolve(tr, DOT, start) == Some(start)
  {
    TokensOfBare(DOT);
    WalkDot(tr, start);
    WalkOne(tr, start, DOT);
  }

  /** A name stands for the inode that it names in the directory where the path starts. */
  lemma ResolveName(tr: Tree, link: Links, depth: Depths, c: Str, start: nat, i: nat)
    requires TreeOk(tr, link, depth) && Bare(c) && c != DOT && |c| < MAX_CMD_LEN
    ensures Resolve(tr, c, start) == Some(i) <==> (start, c, i) in Edges(tr)
  {
    hide TreeOk, Lookup, Tokens, Edges, WalkAll;
    TokensOfBare(c);
    WalkOne(tr, start, c);
    assert c[0] in c;
    EdgeIsLookup(tr, link, depth, start, c, i);
  }

  /** ".." stands for the directory that lists the start. */
  lemma ResolveParent(tr: Tree, link: Links, depth: Depths, start: nat)
    requires TreeOk(tr, link, depth) && start in tr.ents
    ensures Resolve(tr, DOTDOT, start) == Some(Parent(link, start))
    ensures start != ROOT_INODE ==>
              exists n: Str :: n != DOT && n != DOTDOT && (Parent(link, start), n, start) in Edges(tr)
    ensures Parent(link, ROOT_INODE) == ROOT_INODE
  {
    hide TreeOk, Lookup, Edges, Resolve, OwnName;
    DotEdges(tr, link, depth, start, Parent(link, start));
    ResolveName(tr, link, depth, DOTDOT, start, Parent(link, start));
    if start != ROOT_INODE {
      DirFacts(tr, link, depth, start);
      OwnNameEdge(tr, link, depth, start);
    }
  }

  lemma OwnNameEdge(tr: Tree, link: Links, depth: Depths, i: nat)
    requires TreeOk(tr, link, depth) && i in link
    ensures (link[i].0, OwnName(tr, link, i), i) in Edges(tr) && NameOk(OwnName(tr, link, i))
  {
    hide TreeOk, Lookup, Edges, OwnName;
    OwnNameLookup(tr, link, depth, i);
    EdgeIsLookup(tr, link, depth, link[i].0, OwnName(tr, link, i), i);
  }

  lemma {:induction false} TokensOfBoth(a: Str, b: Str)
    ensures Tokens(a + [SLASH] + b) == Tokens(a) + Tokens(b)
    decreases |a|
  {
    var s: Str := a + [SLASH] + b;
    if a == [] {
      assert s[1..] == b;
    } else if a[0] == SLASH {
      assert s[1..] == a[1..] + [SLASH] + b;
      TokensOfBoth(a[1..], b);
    } else {
      var n := TokenLen(a);
      TokenLenWith(a, [SLASH] + b);
      assert s == a + ([SLASH] + b);
      assert s[..n] == a[..n] && s[n..] == a[n..] + [SLASH] + b;
      TokensOfBoth(a[n..], b);
    }
  }

  /** A path in two parts is resolved part by part: the second from where the first has led. */
  lemma ResolveJoin(tr: Tree, a: Str, b: Str, start: nat)
    requires a != [] && (b == [] || b[0] != SLASH) && |a| + 1 + |b| < MAX_CMD_LEN
    ensures Resolve(tr, a + [SLASH] + b, start) == match Resolve(tr, a, start)
                                                   case None => None
                                                   case Some(mid) => Resolve(tr, b, mid)
  {
    hide Tokens, WalkAll;
    var p: Str := a + [SLASH] + b;
    TokensOfBoth(a, b);
    assert p[0] == a[0];
    WalkAllAppend(tr, if a[0] == SLASH then ROOT_INODE else start, Tokens(a), Tokens(b));
  }

  /** A path that begins with '/' is resolved from the root, whatever the start. */
  lemma ResolveSlash(tr: Tree, b: Str, start: nat)
    requires 1 + |b| < MAX_CMD_LEN
    ensures Resolve(tr, [SLASH] + b, start) == Resolve(tr, b, ROOT_INODE)
  {
    hide WalkAll;
    var p: Str := [SLASH] + b;
    assert p[1..] == b;
  }

  /** Of slashes in a row one counts. */
  lemma ResolveSlashes(tr: Tree, a: Str, b: Str, start: nat)
    requires a != [] && |a| + 2 + |b| < MAX_CMD_LEN
    ensures Resolve(tr, a + [SLASH] + [SLASH] + b, start) == Resolve(tr, a + [SLASH] + b, start)
  {
    hide Tokens, WalkAll;
    var one: Str, two: Str := a + [SLASH] + b, a + [SLASH] + [SLASH] + b;
    var c: Str := [SLASH] + b;
    assert two == a + [SLASH] + c;
    TokensOfBoth(a, b);
    TokensOfBoth(a, c);
    var none: Str := [];
    assert c == none + [SLASH] + b;
    TokensOfBoth(none, b);
    TokensOfSlash();
    assert Tokens(none) + Tokens(b) == Tokens(b) && Tokens(one) == Tokens(two);
    assert one[0] == a[0] == two[0] && |one| < |two| < MAX_CMD_LEN;
  }

  /** A path that is too long for the buffer is cut. */
  lemma ResolveCut(tr: Tree, path: Str, start: nat)
    requires |path| >= MAX_CMD_LEN
    ensures Resolve(tr, path, start) == Resolve(tr, path[..MAX_CMD_LEN - 1], start)
  {
    hide Tokens, WalkAll;
  }

  /** The printed path of a directory. */
  ghost function PathOf(tr: Tree, link: Links, depth: Depths, d: nat): Str
    requires TreeOk(tr, link, depth) && d in tr.ents
  {
    AbsolutePath(Trail(tr, link, depth, d))
  }

  /** From a directory, a relative path leads where the printed path of the directory, '/' and it lead. */
  lemma ResolveFrom(tr: Tree, link: Links, depth: Depths, d: nat, path: Str, start: nat)
    requires TreeOk(tr, link, depth) && CleanNames(tr) && d in tr.ents
    requires path == [] || path[0] != SLASH
    requires |PathOf(tr, link, depth, d)| + 1 + |path| < MAX_CMD_LEN
    ensures Resolve(tr, path, d) == Resolve(tr, PathOf(tr, link, depth, d) + [SLASH] + path, start)
  {
    hide TreeOk, CleanNames, Trail, Join, Resolve;
    PathRoundTrip(tr, link, depth, d, start);
    ResolveJoin(tr, PathOf(tr, link, depth, d), path, start);
  }

  /** What a resolution that returned `r`, -1 for nothing, has found for the simple paths. */
  ghost predicate FoundAs(tr: Tree, link: Links, path: Str, start: nat, r: int) {
    && (path == [] || path == DOT ==> r == start)
    && (path == DOTDOT && start in tr.ents ==> r == Parent(link, start))
    && (Bare(path) && path != DOT && |path| < MAX_CMD_LEN ==>
          forall i: nat :: r == i <==> (start, path, i) in Edges(tr))
  }

  lemma ResolutionFinds(tr: Tree, link: Links, depth: Depths, path: Str, start: nat)
    requires TreeOk(tr, link, depth)
    ensures FoundAs(tr, link, path, start, match Resolve(tr, path, start) case None => -1 case Some(i) => i)
  {
    hide TreeOk, Edges, Resolve;
    var r: int := match Resolve(tr, path, start) case None => -1 case Some(i) => i;
    ResolveNothing(tr, start);
    if path == DOTDOT && start in tr.ents {
      ResolveParent(tr, link, depth, start);
    }
    if Bare(path) && path != DOT && |path| < MAX_CMD_LEN {
      forall i: nat
        ensures r == i <==> (start, path, i) in Edges(tr)
      {
        ResolveName(tr, link, depth, path, start, i);
      }
    }
  }

  // ---- printed paths ----

  lemma {:induction false} JoinMore(names: seq<Str>, x: Str)
    ensures Join(names + [x]) == if names == [] then x else Join(names) + [SLASH] + x
  {
    if |names| > 1 {
      assert (names + [x])[1..] == names[1..] + [x];
      JoinMore(names[1..], x);
      var rest := Join(names[1..]);
      assert names[0] + [SLASH] + (rest + [SLASH] + x) == names[0] + [SLASH] + rest + [SLASH] + x;
    } else if |names| == 1 {
      assert (names + [x])[1..] == [x];
    }
  }

  lemma PathOfRoot(tr: Tree, link: Links, depth: Depths)
    requires TreeOk(tr, link, depth)
    ensures ROOT_INODE in tr.ents && PathOf(tr, link, depth, ROOT_INODE) == [SLASH]
  {
    hide TreeOk;
    RootDepth(tr, link, depth);
  }

  /** A directory prints as the one that lists it, '/' and its name there; below the root there is but one '/'. */
  lemma PathOfChild(tr: Tree, link: Links, depth: Depths, p: nat, name: Str, d: nat)
    requires TreeOk(tr, link, depth) && (p, name, d) in Edges(tr) && name != DOT && name != DOTDOT && d in tr.ents
    ensures p in tr.ents
    ensures PathOf(tr, link, depth, d)
            == (if p == ROOT_INODE then [] else PathOf(tr, link, depth, p)) + [SLASH] + name
  {
    hide TreeOk, Edges, Join, OwnName;
    EdgeHasSlot(tr, p, name, d);
    OtherEdge(tr, link, depth, p, name, d);
    ChildTrail(tr, link, depth, p, name, d);
    var t := Trail(tr, link, depth, p);
    JoinMore(t, name);
    if p == ROOT_INODE {
      assert t == [];
    } else {
      TrailIsLong(tr, link, depth, p);
      assert [SLASH] + (Join(t) + [SLASH] + name) == [SLASH] + Join(t) + [SLASH] + name;
    }
  }

  lemma ChildTrail(tr: Tree, link: Links, depth: Depths, p: nat, name: Str, d: nat)
    requires TreeOk(tr, link, depth) && p in tr.ents && d in tr.ents && d != ROOT_INODE
    requires d in link && link[d].0 == p && link[d].1 < |tr.ents[p]| && tr.ents[p][link[d].1].name == name
    ensures Trail(tr, link, depth, d) == Trail(tr, link, depth, p) + [name]
  {
    hide TreeOk;
  }

  lemma TrailIsLong(tr: Tree, link: Links, depth: Depths, p: nat)
    requires TreeOk(tr, link, depth) && p in tr.ents && p != ROOT_INODE
    ensures Trail(tr, link, depth, p) != []
  {
    hide TreeOk, OwnName;
  }

  /** The bytes that `names` take when each is preceded by a '/'. */
  function Width(names: seq<Str>): nat {
    if names == [] then 0 else Width(names[..|names| - 1]) + 1 + |names[|names| - 1]|
  }

  ghost predicate NoDouble(s: Str) {
    forall k :: 0 <= k < |s| - 1 ==> !(s[k] == SLASH && s[k + 1] == SLASH)
  }

  /** A printed path begins with '/', has no two of them in a row, and ends in one only for the root. */
  ghost predicate WellPrinted(names: seq<Str>, text: Str) {
    && text != [] && text[0] == SLASH && NoDouble(text)
    && (text[|text| - 1] == SLASH <==> names == [])
    && |text| == if names == [] then 1 else Width(names)
  }

  lemma {:induction false} PrintsWell(names: seq<Str>)
    requires forall i :: 0 <= i < |names| ==> CleanName(names[i])
    ensures WellPrinted(names, AbsolutePath(names))
  {
    hide Join;
    if |names| == 0 {
      JoinNone();
    } else {
      var n := |names| - 1;
      var rest, x := names[..n], names[n];
      assert names == rest + [x] && x[0] in x && x[|x| - 1] in x;
      JoinMore(rest, x);
      if n == 0 {
        assert AbsolutePath(names) == [SLASH] + x;
        OneName([], x);
      } else {
        PrintsWell(rest);
        assert AbsolutePath(names) == AbsolutePath(rest) + [SLASH] + x;
        OneName(AbsolutePath(rest), x);
      }
    }
  }

  lemma JoinNone()
    ensures Join([]) == []
  {
  }

  lemma OneName(s: Str, x: Str)
    requires NoDouble(s) && (s != [] ==> s[|s| - 1] != SLASH) && x != [] && SLASH !in x
    ensures NoDouble(s + [SLASH] + x)
  {
    var t := s + [SLASH] + x;
    forall k | 0 <= k < |t| - 1
      ensures !(t[k] == SLASH && t[k + 1] == SLASH)
    {
      if k + 1 > |s| {
        assert t[k + 1] == x[k - |s|] && x[k - |s|] in x;
      }
    }
  }

  lemma PathOfPrintsWell(tr: Tree, link: Links, depth: Depths, d: nat)
    requires TreeOk(tr, link, depth) && CleanNames(tr) && d in tr.ents
    ensures WellPrinted(Trail(tr, link, depth, d), PathOf(tr, link, depth, d))
    ensures Trail(tr, link, depth, d) == [] <==> d == ROOT_INODE
  {
    hide TreeOk, CleanNames, Trail, Join, CleanName;
    TrailClean(tr, link, depth, d);
    PrintsWell(Trail(tr, link, depth, d));
    if d == ROOT_INODE {
      RootTrail(tr, link, depth);
    } else {
      TrailIsLong(tr, link, depth, d);
    }
  }

  lemma RootTrail(tr: Tree, link: Links, depth: Depths)
    requires TreeOk(tr, link, depth) && ROOT_INODE in tr.ents
    ensures Trail(tr, link, depth, ROOT_INODE) == []
  {
    hide TreeOk;
  }
}
