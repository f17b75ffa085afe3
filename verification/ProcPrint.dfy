/** The three passes of `proc_snapshot` over the collected list: link every node below its parent, mark
    the last child of each parent, and print the tree breadth first into the bounded kernel buffer. */
module ProcPrint {
  import opened Bytes
  import opened ProcSnapshot

  // ---- the text of the tree, without any bound ----

  const BAR: seq<byte> := [0xE2, 0x94, 0x82, 0x20, 0x20]
  const BLANK: seq<byte> := [0x20, 0x20, 0x20]
  const ELBOW: seq<byte> := [0xE2, 0x94, 0x94, 0xE2, 0x94, 0x80]
  const TEE: seq<byte> := [0xE2, 0x94, 0x9C, 0xE2, 0x94, 0x80]

  function Digits(n: nat): (s: seq<byte>)
    ensures |s| > 0
  {
    if n < 10 then [48 + n] else Digits(n / 10) + [48 + n % 10]
  }

  /** What "%s(%d)\n" prints. */
  function Tag(p: Proc): (s: seq<byte>)
    ensures |s| > 0
  {
    p.comm + [0x28] + (if p.pid < 0 then [0x2D] + Digits(-p.pid) else Digits(p.pid)) + [0x29, 0x0A]
  }

  /** No later node of the list has the same parent. */
  ghost predicate IsLast(ns: seq<Proc>, x: nat)
    requires x < |ns|
  {
    ParentOf(ns, x).Some? && forall y :: x < y < |ns| ==> ParentOf(ns, y) != ParentOf(ns, x)
  }

  /** The proper ancestors from `p` up to but not including the root, nearest first, at most `room`. */
  ghost function Chain(ns: seq<Proc>, root: nat, p: nat, room: nat): (c: seq<nat>)
    requires p < |ns|
    ensures |c| <= room && forall k :: 0 <= k < |c| ==> c[k] < |ns|
    decreases room
  {
    if room == 0 || p == root then []
    else
      [p] + match ParentOf(ns, p)
            case None => []
            case Some(q) => Chain(ns, root, q, room - 1)
  }

  /** The pieces that indent a line below a chain of ancestors, farthest first. */
  ghost function IndentPieces(ns: seq<Proc>, chain: seq<nat>): seq<seq<byte>>
    requires forall k :: 0 <= k < |chain| ==> chain[k] < |ns|
  {
    if chain == [] then []
    else IndentPieces(ns, chain[1..]) + [if IsLast(ns, chain[0]) then BLANK else BAR]
  }

  /** The pieces of one line, each printed by a call of its own. */
  ghost function NodePieces(ns: seq<Proc>, root: nat, x: nat): seq<seq<byte>>
    requires x < |ns|
  {
    if x == root || ParentOf(ns, x).None? then [Tag(ns[x])]
    else
      IndentPieces(ns, Chain(ns, root, ParentOf(ns, x).value, MAX_ANCESTORS))
      + [if IsLast(ns, x) then ELBOW else TEE] + [Tag(ns[x])]
  }

  ghost function Pieces(ns: seq<Proc>, root: nat, s: seq<nat>): seq<seq<byte>>
    requires forall k :: 0 <= k < |s| ==> s[k] < |ns|
  {
    if s == [] then [] else Pieces(ns, root, s[..|s| - 1]) + NodePieces(ns, root, s[|s| - 1])
  }

  lemma {:induction false} PiecesPrefix(ns: seq<Proc>, root: nat, s: seq<nat>, t: seq<nat>)
    requires s <= t && forall k :: 0 <= k < |t| ==> t[k] < |ns|
    ensures forall k :: 0 <= k < |s| ==> s[k] < |ns|
    ensures Pieces(ns, root, s) <= Pieces(ns, root, t)
    decreases |t|
  {
    hide NodePieces;
    if s == t {
    } else {
      PiecesPrefix(ns, root, s, t[..|t| - 1]);
    }
  }

  /** All pieces of the tree in print order. */
  ghost function AllPieces(ns: seq<Proc>, root: nat): seq<seq<byte>>
    requires RootOk(ns, root)
  {
    Listed(ns, root);
    Pieces(ns, root, PrintOrder(ns, root).0)
  }

  function Concat(ps: seq<seq<byte>>): seq<byte> {
    if ps == [] then [] else Concat(ps[..|ps| - 1]) + ps[|ps| - 1]
  }

  /** The whole tree, however long. */
  ghost function FullText(ns: seq<Proc>, root: nat): seq<byte>
    requires RootOk(ns, root)
  {
    Concat(AllPieces(ns, root))
  }

  lemma Listed(ns: seq<Proc>, root: nat)
    requires RootOk(ns, root)
    ensures forall k :: 0 <= k < |PrintOrder(ns, root).0| ==> PrintOrder(ns, root).0[k] < |ns|
  {
    hide RootOk, Up, PrintOrder;
    var (s, level) := PrintOrder(ns, root);
    assert Reach(ns, root, s, level);
  }

  /** The walk up from a node stays on the chain to the root and stops there after depth - 1 steps,
      unless 64 ancestors come first. */
  lemma {:induction false} ChainIsAncestry(ns: seq<Proc>, root: nat, p: nat, room: nat, depth: nat)
    requires RootOk(ns, root) && p < |ns| && Up(ns, p, depth, root)
    ensures var c := Chain(ns, root, p, room);
            && |c| == (if room < depth then room else depth)
            && forall k :: 0 <= k < |c| ==> Up(ns, p, k, c[k]) && Up(ns, c[k], depth - k, root)
    decreases room
  {
    hide ParentOf, RootOk;
    if room == 0 {
    } else if p == root {
      NoLoop(ns, root, depth);
    } else {
      var q := ParentOf(ns, p).value;
      ChainIsAncestry(ns, root, q, room - 1, depth - 1);
      var c, d := Chain(ns, root, p, room), Chain(ns, root, q, room - 1);
      assert c == [p] + d;
      forall k | 0 <= k < |c|
        ensures Up(ns, p, k, c[k]) && Up(ns, c[k], depth - k, root)
      {
        if k > 0 {
          assert c[k] == d[k - 1];
        }
      }
    }
  }

  lemma NoLoop(ns: seq<Proc>, root: nat, k: nat)
    requires RootOk(ns, root) && Up(ns, root, k, root)
    ensures k == 0
  {
  }

  // ---- bounded output ----

  lemma ConcatAppend(ps: seq<seq<byte>>, p: seq<byte>)
    ensures Concat(ps + [p]) == Concat(ps) + p
  {
    assert (ps + [p])[..|ps|] == ps;
  }

  lemma {:induction false} ConcatPrefix(ps: seq<seq<byte>>, more: seq<seq<byte>>)
    requires ps <= more
    ensures Concat(ps) <= Concat(more)
    decreases |more|
  {
    if ps != more {
      ConcatPrefix(ps, more[..|more| - 1]);
    }
  }

  /** The first piece that does not fit a buffer of `room` bytes together with those before it and a NUL. */
  function StopPiece(ps: seq<seq<byte>>, room: nat): (j: nat)
    requires 0 < room <= |Concat(ps)|
    ensures j < |ps| && |Concat(ps[..j])| < room <= |Concat(ps[..j + 1])|
  {
    var n := |ps| - 1;
    if |Concat(ps[..n])| < room then
      assert ps[..n + 1] == ps;
      n
    else
      var j := StopPiece(ps[..n], room);
      assert ps[..n][..j] == ps[..j] && ps[..n][..j + 1] == ps[..j + 1];
      j
  }

  /** There is only one such piece. */
  lemma StopIsUnique(ps: seq<seq<byte>>, room: nat, j: nat)
    requires 0 < room <= |Concat(ps)| && j < |ps| && |Concat(ps[..j])| < room <= |Concat(ps[..j + 1])|
    ensures j == StopPiece(ps, room)
  {
    var i := StopPiece(ps, room);
    if i < j {
      assert ps[..i + 1] <= ps[..j];
      ConcatPrefix(ps[..i + 1], ps[..j]);
    } else if j < i {
      assert ps[..j + 1] <= ps[..i];
      ConcatPrefix(ps[..j + 1], ps[..i]);
    }
  }

  /** The first `w` bytes of the buffer are the pieces printed so far, with room for the NUL after them. */
  ghost predicate Holding(b: seq<byte>, w: nat, ps: seq<seq<byte>>) {
    w < |b| && b[..w] == Concat(ps) && (w > 0 ==> b[w] == 0)
  }

  /** Printing `ps` ran out of room at its first piece that does not fit: the bytes before it are all there,
      and the byte after them is the first of that piece, or the NUL when it is the last of the buffer. */
  ghost predicate CutShort(b: seq<byte>, w: nat, ps: seq<seq<byte>>) {
    && 0 < |b| <= |Concat(ps)|
    && var j := StopPiece(ps, |b|);
       && w < |b| && b[..w] == Concat(ps[..j])
       && (w + 1 < |b| ==> ps[j] != [])
       && b[w] == if w + 1 < |b| then ps[j][0] else 0
  }

  lemma CutShortLonger(b: seq<byte>, w: nat, ps: seq<seq<byte>>, more: seq<seq<byte>>)
    requires CutShort(b, w, ps) && ps <= more
    ensures CutShort(b, w, more)
  {
    ConcatPrefix(ps, more);
    var j := StopPiece(ps, |b|);
    assert more[..j] == ps[..j] && more[..j + 1] == ps[..j + 1] && more[j] == ps[j];
    StopIsUnique(more, |b|, j);
  }

  lemma CutHere(b: seq<byte>, w: nat, ps: seq<seq<byte>>, p: seq<byte>)
    requires w < |b| <= w + |p| && b[..w] == Concat(ps) && p != []
    requires b[w] == if w + 1 < |b| then p[0] else 0
    ensures CutShort(b, w, ps + [p])
  {
    var all := ps + [p];
    ConcatAppend(ps, p);
    assert all[..|ps|] == ps && all[..|ps| + 1] == all;
    StopIsUnique(all, |b|, |ps|);
  }

  /** snprintf(kbuf + written, buf_size - written, "%s", piece) and the test that follows each call. */
  method PrintPiece(kbuf: array<byte>, w: nat, piece: seq<byte>, ghost ps: seq<seq<byte>>) returns (ok: bool, w': nat)
    requires Holding(kbuf[..], w, ps) && |piece| > 0
    modifies kbuf
    ensures ok ==> Holding(kbuf[..], w', ps + [piece])
    ensures !ok ==> CutShort(kbuf[..], w', ps + [piece])
  {
    hide Concat, CutShort;
    ghost var text := Concat(ps);
    ConcatAppend(ps, piece);
    var room := kbuf.Length - w;
    var n := if |piece| < room then |piece| else room - 1;
    var i := 0;
    while i < n
      invariant 0 <= i <= n
      invariant kbuf[..w + i] == text + piece[..i]
    {
      kbuf[w + i] := piece[i];
      i := i + 1;
      assert kbuf[..w + i] == text + piece[..i];
    }
    kbuf[w + n] := 0;
    assert kbuf[..w + n] == text + piece[..n];
    if |piece| >= room {
      assert kbuf[..][..w] == kbuf[..w + n][..w] == text;
      assert w + 1 < kbuf.Length ==> kbuf[..w + n][w] == piece[0];
      CutHere(kbuf[..], w, ps, piece);
      return false, w;
    }
    assert kbuf[..][..w + n] == kbuf[..w + n];
    return true, w + |piece|;
  }

  // ---- linking ----

  /** What the two linking passes leave in the nodes. */
  ghost predicate Linked(ns: seq<Proc>, parent: seq<Option<nat>>, children: seq<seq<nat>>) {
    && |parent| == |ns| && |children| == |ns|
    && (forall k :: 0 <= k < |ns| ==> parent[k] == ParentOf(ns, k))
    && (forall p :: 0 <= p < |ns| ==> children[p] == Children(ns, p))
  }

  /** The same after the first `n` nodes. */
  ghost predicate LinkedTo(ns: seq<Proc>, parent: seq<Option<nat>>, children: seq<seq<nat>>, n: nat)
    requires n <= |ns|
  {
    && |parent| == |ns| && |children| == |ns|
    && (forall k :: 0 <= k < |ns| ==> parent[k] == if k < n then ParentOf(ns, k) else None)
    && (forall p :: 0 <= p < |ns| ==> children[p] == Kids(ns, p, n))
  }

  ghost predicate Marked(ns: seq<Proc>, isLast: seq<bool>) {
    |isLast| == |ns| && forall x :: 0 <= x < |ns| ==> isLast[x] == IsLast(ns, x)
  }

  /** No node after `x` among the first `n` is a child of `p`. */
  ghost predicate NoLater(ns: seq<Proc>, p: nat, x: nat, n: nat)
    requires n <= |ns|
  {
    forall y :: x < y < n ==> ParentOf(ns, y) != Some(p)
  }

  /** The last of the children in list order is the only one with no later sibling. */
  lemma {:induction false} LastOfKids(ns: seq<Proc>, p: nat, n: nat, k: nat)
    requires n <= |ns| && k < |Kids(ns, p, n)|
    ensures NoLater(ns, p, Kids(ns, p, n)[k], n) <==> k == |Kids(ns, p, n)| - 1
  {
    hide ParentOf;
    var t, s := Kids(ns, p, n - 1), Kids(ns, p, n);
    if ParentOf(ns, n - 1) == Some(p) {
      assert s == t + [n - 1];
      if k < |t| {
        assert t[k] < n - 1;
        assert s[k] == t[k];
      }
    } else {
      assert s == t;
      LastOfKids(ns, p, n - 1, k);
      assert NoLater(ns, p, s[k], n) <==> NoLater(ns, p, s[k], n - 1);
    }
  }

  lemma LastMeansIsLast(ns: seq<Proc>, p: nat, k: nat)
    requires k < |Children(ns, p)|
    ensures Children(ns, p)[k] < |ns|
    ensures IsLast(ns, Children(ns, p)[k]) <==> k == |Children(ns, p)| - 1
  {
    hide ParentOf;
    LastOfKids(ns, p, |ns|, k);
    var x := Kids(ns, p, |ns|)[k];
    assert x < |ns| && ParentOf(ns, x) == Some(p);
    assert IsLast(ns, x) <==> NoLater(ns, p, x, |ns|);
  }

  lemma LinkStep(ns: seq<Proc>, parent: seq<Option<nat>>, children: seq<seq<nat>>, i: nat, j: nat)
    requires i < |ns| && LinkedTo(ns, parent, children, i)
    requires j == if ns[i].pid == 1 then |ns| else FindPid(ns, ns[i].ppid, 0)
    ensures j == |ns| ==> LinkedTo(ns, parent, children, i + 1)
    ensures j < |ns| ==>
      LinkedTo(ns, parent[i := Some(j)], children[j := children[j] + [i]], i + 1)
  {
    LinkedParent(ns, i, j);
    LinkChildren(ns, parent, children, i, j);
  }

  lemma LinkedParent(ns: seq<Proc>, i: nat, j: nat)
    requires i < |ns|
    requires j == if ns[i].pid == 1 then |ns| else FindPid(ns, ns[i].ppid, 0)
    ensures j <= |ns| && ParentOf(ns, i) == if j == |ns| then None else Some(j)
  {
  }

  lemma LinkChildren(ns: seq<Proc>, parent: seq<Option<nat>>, children: seq<seq<nat>>, i: nat, j: nat)
    requires i < |ns| && LinkedTo(ns, parent, children, i)
    requires j <= |ns| && ParentOf(ns, i) == if j == |ns| then None else Some(j)
    ensures j == |ns| ==> LinkedTo(ns, parent, children, i + 1)
    ensures j < |ns| ==>
      LinkedTo(ns, parent[i := Some(j)], children[j := children[j] + [i]], i + 1)
  {
    hide ParentOf, FindPid;
    forall p | 0 <= p < |ns|
      ensures Kids(ns, p, i + 1) == if p == j then children[p] + [i] else children[p]
    {
    }
  }

  lemma LinkSizes(ns: seq<Proc>, parent: seq<Option<nat>>, children: seq<seq<nat>>, n: nat)
    requires n <= |ns| && LinkedTo(ns, parent, children, n)
    ensures |parent| == |ns| && |children| == |ns|
  {
  }

  lemma LinkDone(ns: seq<Proc>, parent: seq<Option<nat>>, children: seq<seq<nat>>)
    requires LinkedTo(ns, parent, children, |ns|)
    ensures Linked(ns, parent, children)
  {
    hide ParentOf, Kids;
  }

  /** A collected process list with the links that `proc_snapshot` adds to its nodes. */
  class Forest {
    const nodes: seq<Proc>
    var parent: seq<Option<nat>>
    var children: seq<seq<nat>>
    var isLast: seq<bool>

    constructor (ns: seq<Proc>)
      ensures nodes == ns
      ensures LinkedTo(ns, parent, children, 0) && isLast == seq(|ns|, _ => false)
    {
      nodes := ns;
      parent := seq(|ns|, _ => None);
      children := seq(|ns|, _ => []);
      isLast := seq(|ns|, _ => false);
    }

    /** Every node other than pid 1 goes below the first node that carries its parent's pid. */
    method LinkParents() returns (root: Option<nat>)
      requires LinkedTo(nodes, parent, children, 0)
      modifies this`parent, this`children
      ensures Linked(nodes, parent, children)
      ensures root == if |nodes| == 0 then None else Some(RootOf(nodes, |nodes|))
    {
      hide LinkedTo, Linked, ParentOf, Kids;
      root := None;
      var i := 0;
      while i < |nodes|
        invariant i <= |nodes| && LinkedTo(nodes, parent, children, i)
        invariant root.Some? ==> i > 0 && root.value == RootOf(nodes, i)
        invariant root.None? ==> RootOf(nodes, i) == 0
      {
        LinkSizes(nodes, parent, children, i);
        LinkStep(nodes, parent, children, i, if nodes[i].pid == 1 then |nodes| else FindPid(nodes, nodes[i].ppid, 0));
        if nodes[i].pid == 1 {
          root := Some(i);
        } else {
          var j := 0;
          while j < |nodes| && nodes[j].pid != nodes[i].ppid
            invariant j <= |nodes| && FindPid(nodes, nodes[i].ppid, 0) == FindPid(nodes, nodes[i].ppid, j)
          {
            j := j + 1;
          }
          if j < |nodes| {
            children := children[j := children[j] + [i]];
            parent := parent[i := Some(j)];
          }
        }
        i := i + 1;
      }
      LinkDone(nodes, parent, children);
      if root.None? && |nodes| > 0 {
        root := Some(0);
      }
    }

    /** Exactly the node at the end of each chain of siblings is marked. */
    method MarkLast()
      requires Linked(nodes, parent, children) && isLast == seq(|nodes|, _ => false)
      modifies this`isLast
      ensures Marked(nodes, isLast)
    {
      var i := 0;
      while i < |nodes|
        invariant i <= |nodes| && |isLast| == |nodes|
        invariant forall x :: 0 <= x < |nodes| ==>
          isLast[x] == (IsLast(nodes, x) && ParentOf(nodes, x).value < i)
      {
        if children[i] != [] {
          MarkChildren(i);
        }
        i := i + 1;
      }
    }

    method MarkChildren(i: nat)
      requires Linked(nodes, parent, children) && |isLast| == |nodes|
      requires i < |nodes| && children[i] != []
      modifies this`isLast
      ensures |isLast| == |nodes|
      ensures forall x :: 0 <= x < |nodes| ==>
        isLast[x] == if ParentOf(nodes, x) == Some(i) then IsLast(nodes, x) else old(isLast)[x]
    {
      hide ParentOf, IsLast, Children, Linked;
      LinkedAt(nodes, parent, children, i);
      ChildrenAre(nodes, i);
      var kids := children[i];
      var c := 0;
      while c < |kids|
        invariant c <= |kids| && |isLast| == |nodes|
        invariant forall x :: 0 <= x < |nodes| ==> isLast[x] == (old(isLast)[x] && x !in kids[..c])
      {
        isLast := isLast[kids[c] := false];
        c := c + 1;
      }
      assert kids[..c] == kids;
      isLast := isLast[kids[|kids| - 1] := true];
      LastMeansIsLast(nodes, i, |kids| - 1);
      forall x | 0 <= x < |nodes|
        ensures isLast[x] == if ParentOf(nodes, x) == Some(i) then IsLast(nodes, x) else old(isLast)[x]
      {
        if ParentOf(nodes, x) == Some(i) {
          var k :| 0 <= k < |kids| && kids[k] == x;
          LastMeansIsLast(nodes, i, k);
        } else {
          assert x !in kids;
        }
      }
    }

    /** The walk from a node to the root. It never leaves the chain, so it never meets a node without
        a parent. */
    method Ancestors(root: nat, x: nat, ghost depth: nat, ancestors: array<nat>) returns (count: nat)
      requires Linked(nodes, parent, children) && ancestors.Length == MAX_ANCESTORS
      requires root < |nodes| && x < |nodes| && x != root && Up(nodes, x, depth, root)
      modifies ancestors
      ensures count <= MAX_ANCESTORS
      ensures ParentOf(nodes, x).Some?
      ensures ancestors[..count] == Chain(nodes, root, ParentOf(nodes, x).value, MAX_ANCESTORS)
    {
      hide Up, ParentOf, Chain, Linked;
      LinkedAt(nodes, parent, children, x);
      OneUp(nodes, root, x, depth);
      var p: nat := parent[x].value;
      count := 0;
      ghost var left: nat := depth - 1;
      ghost var whole := Chain(nodes, root, p, MAX_ANCESTORS);
      while p != root && count < MAX_ANCESTORS
        invariant p < |nodes| && count <= MAX_ANCESTORS && Up(nodes, p, left, root)
        invariant ancestors[..count] + Chain(nodes, root, p, MAX_ANCESTORS - count) == whole
        decreases MAX_ANCESTORS - count
      {
        LinkedAt(nodes, parent, children, p);
        OneUp(nodes, root, p, left);
        ChainStep(nodes, root, p, MAX_ANCESTORS - count);
        ghost var done := ancestors[..count];
        ghost var rest := Chain(nodes, root, ParentOf(nodes, p).value, MAX_ANCESTORS - count - 1);
        ancestors[count] := p;
        assert ancestors[..count + 1] == done + [p];
        assert done + ([p] + rest) == (done + [p]) + rest;
        count := count + 1;
        p := parent[p].value;
        left := left - 1;
      }
      ChainEnd(nodes, root, p, MAX_ANCESTORS - count);
    }

    method PrintIndent(kbuf: array<byte>, w: nat, ancestors: array<nat>, count: nat, ghost ps: seq<seq<byte>>)
      returns (ok: bool, w': nat)
      requires Marked(nodes, isLast) && Holding(kbuf[..], w, ps)
      requires count <= ancestors.Length && forall k :: 0 <= k < count ==> ancestors[k] < |nodes|
      modifies kbuf
      ensures ok ==> Holding(kbuf[..], w', ps + IndentPieces(nodes, ancestors[..count]))
      ensures !ok ==> CutShort(kbuf[..], w', ps + IndentPieces(nodes, ancestors[..count]))
    {
      hide Holding, CutShort, IndentPieces, IsLast, Marked;
      ghost var chain := ancestors[..count];
      ok, w' := true, w;
      NoIndent(nodes, chain, ps);
      var i := count;
      while i > 0
        invariant i <= count
        invariant ancestors[..count] == chain
        invariant Holding(kbuf[..], w', ps + IndentPieces(nodes, chain[i..]))
      {
        i := i - 1;
        MarkedAt(nodes, isLast, ancestors[i]);
        ghost var before := ps + IndentPieces(nodes, chain[i + 1..]);
        var piece := if isLast[ancestors[i]] then BLANK else BAR;
        IndentStep(nodes, chain, i, ps, piece);
        ok, w' := PrintPiece(kbuf, w', piece, before);
        if !ok {
          IndentPrefix(nodes, chain, i, ps);
          CutShortLonger(kbuf[..], w', before + [piece], ps + IndentPieces(nodes, chain));
          return;
        }
      }
    }

    /** One turn of the loop up to the queueing of the children. */
    method PrintNode(kbuf: array<byte>, w: nat, root: nat, x: nat, ghost depth: nat, ghost ps: seq<seq<byte>>)
      returns (ok: bool, w': nat)
      requires Linked(nodes, parent, children) && Marked(nodes, isLast) && Holding(kbuf[..], w, ps)
      requires RootOk(nodes, root) && x < |nodes| && Up(nodes, x, depth, root)
      modifies kbuf
      ensures ok ==> Holding(kbuf[..], w', ps + NodePieces(nodes, root, x))
      ensures !ok ==> CutShort(kbuf[..], w', ps + NodePieces(nodes, root, x))
    {
      hide RootOk, Up, Linked, Marked, Holding, CutShort, ParentOf, IsLast, Tag, Chain, IndentPieces;
      RootInRange(nodes, root);
      LinkedSizes(nodes, parent, children);
      MarkedAt(nodes, isLast, x);
      if x == root {
        ok, w' := PrintPiece(kbuf, w, Tag(nodes[x]), ps);
        return;
      }
      var ancestors := new nat[MAX_ANCESTORS];
      var count := Ancestors(root, x, depth, ancestors);
      ghost var line := ps + NodePieces(nodes, root, x);
      ghost var chain := Chain(nodes, root, ParentOf(nodes, x).value, MAX_ANCESTORS);
      var prefix := if isLast[x] then ELBOW else TEE;
      ghost var first := ps + IndentPieces(nodes, chain);
      assert line == first + [prefix] + [Tag(nodes[x])];
      assert forall k :: 0 <= k < count ==> ancestors[k] == chain[k];
      ok, w' := PrintIndent(kbuf, w, ancestors, count, ps);
      if !ok {
        CutShortLonger(kbuf[..], w', first, line);
        return;
      }
      ok, w' := PrintPiece(kbuf, w', prefix, first);
      if !ok {
        CutShortLonger(kbuf[..], w', first + [prefix], line);
        return;
      }
      ok, w' := PrintPiece(kbuf, w', Tag(nodes[x]), first + [prefix]);
    }
  }

  lemma ChildrenAre(ns: seq<Proc>, p: nat)
    ensures forall k :: 0 <= k < |Children(ns, p)| ==>
              Children(ns, p)[k] < |ns| && ParentOf(ns, Children(ns, p)[k]) == Some(p)
    ensures forall x :: 0 <= x < |ns| && ParentOf(ns, x) == Some(p) ==> x in Children(ns, p)
  {
    hide ParentOf;
  }

  lemma LinkedSizes(ns: seq<Proc>, parent: seq<Option<nat>>, children: seq<seq<nat>>)
    requires Linked(ns, parent, children)
    ensures |parent| == |ns| && |children| == |ns|
  {
  }

  lemma LinkedAt(ns: seq<Proc>, parent: seq<Option<nat>>, children: seq<seq<nat>>, x: nat)
    requires Linked(ns, parent, children) && x < |ns|
    ensures |parent| == |ns| == |children|
    ensures parent[x] == ParentOf(ns, x) && children[x] == Children(ns, x)
  {
    hide ParentOf, Children;
  }

  lemma OneUp(ns: seq<Proc>, root: nat, x: nat, depth: nat)
    requires x != root && Up(ns, x, depth, root) && x < |ns|
    ensures depth > 0 && ParentOf(ns, x).Some? && Up(ns, ParentOf(ns, x).value, depth - 1, root)
  {
    hide ParentOf;
  }

  lemma ChainStep(ns: seq<Proc>, root: nat, p: nat, room: nat)
    requires p < |ns| && p != root && room > 0 && ParentOf(ns, p).Some?
    ensures Chain(ns, root, p, room) == [p] + Chain(ns, root, ParentOf(ns, p).value, room - 1)
  {
    hide ParentOf;
  }

  lemma ChainEnd(ns: seq<Proc>, root: nat, p: nat, room: nat)
    requires p < |ns| && (p == root || room == 0)
    ensures Chain(ns, root, p, room) == []
  {
  }

  lemma MarkedAt(ns: seq<Proc>, isLast: seq<bool>, x: nat)
    requires Marked(ns, isLast) && x < |ns|
    ensures |isLast| == |ns| && isLast[x] == IsLast(ns, x)
  {
  }

  lemma NoIndent(ns: seq<Proc>, chain: seq<nat>, ps: seq<seq<byte>>)
    requires forall k :: 0 <= k < |chain| ==> chain[k] < |ns|
    ensures ps + IndentPieces(ns, chain[|chain|..]) == ps && chain[0..] == chain
  {
  }

  lemma IndentStep(ns: seq<Proc>, chain: seq<nat>, i: nat, ps: seq<seq<byte>>, piece: seq<byte>)
    requires i < |chain| && forall k :: 0 <= k < |chain| ==> chain[k] < |ns|
    requires piece == if IsLast(ns, chain[i]) then BLANK else BAR
    ensures ps + IndentPieces(ns, chain[i + 1..]) + [piece] == ps + IndentPieces(ns, chain[i..])
  {
    hide IsLast, IndentPieces;
    var c := chain[i..];
    var below := IndentPieces(ns, c[1..]);
    assert c[1..] == chain[i + 1..] && c[0] == chain[i];
    IndentFirst(ns, c);
    Regroup(ps, below, [piece]);
  }

  lemma Regroup(a: seq<seq<byte>>, b: seq<seq<byte>>, c: seq<seq<byte>>)
    ensures a + b + c == a + (b + c)
  {
  }

  lemma IndentFirst(ns: seq<Proc>, c: seq<nat>)
    requires c != [] && forall k :: 0 <= k < |c| ==> c[k] < |ns|
    ensures IndentPieces(ns, c) == IndentPieces(ns, c[1..]) + [if IsLast(ns, c[0]) then BLANK else BAR]
  {
    hide IsLast;
  }

  lemma {:induction false} IndentPrefix(ns: seq<Proc>, chain: seq<nat>, i: nat, ps: seq<seq<byte>>)
    requires i <= |chain| && forall k :: 0 <= k < |chain| ==> chain[k] < |ns|
    ensures ps + IndentPieces(ns, chain[i..]) <= ps + IndentPieces(ns, chain)
    decreases i
  {
    hide IsLast;
    if i == 0 {
      assert chain[0..] == chain;
    } else {
      assert chain[i - 1..][1..] == chain[i..];
      IndentPrefix(ns, chain, i - 1, ps);
    }
  }

  // ---- the system call ----

  lemma PiecesStep(ns: seq<Proc>, root: nat, s: seq<nat>, nd: nat)
    requires nd < |s| && forall k :: 0 <= k < |s| ==> s[k] < |ns|
    ensures Pieces(ns, root, s[..nd + 1]) == Pieces(ns, root, s[..nd]) + NodePieces(ns, root, s[nd])
  {
    hide NodePieces;
    assert s[..nd + 1][..nd] == s[..nd];
  }

  lemma NotYetAll(ns: seq<Proc>, root: nat, s: seq<nat>, nd: nat, level: seq<nat>)
    requires RootOk(ns, root) && Bfs(ns, root, s, nd, level)
    requires Order(ns, root, s, nd, level) == PrintOrder(ns, root)
    ensures forall k :: 0 <= k < |s| ==> s[k] < |ns|
    ensures Pieces(ns, root, s[..nd]) <= AllPieces(ns, root)
    ensures nd == |s| ==> Pieces(ns, root, s) == AllPieces(ns, root)
  {
    hide RootOk, Up, Pieces, PrintOrder;
    Listed(ns, root);
    var t := Order(ns, root, s, nd, level).0;
    assert s <= t;
    assert s[..nd] <= t;
    PiecesPrefix(ns, root, s[..nd], t);
  }

  /** The loop's queue is the part of the list not yet printed. Taking its head and appending the
      children of that node is one step along the order. */
  lemma QueueStep(ns: seq<Proc>, root: nat, s: seq<nat>, nd: nat, level: seq<nat>)
    requires RootOk(ns, root) && Bfs(ns, root, s, nd, level) && nd < |s| == |level|
    requires Order(ns, root, s, nd, level) == PrintOrder(ns, root)
    ensures var t, m := Queued(ns, s, nd), NextLevels(ns, s, nd, level);
            && Bfs(ns, root, t, nd + 1, m)
            && Order(ns, root, t, nd + 1, m) == PrintOrder(ns, root)
            && t[nd + 1..] == s[nd..][1..] + Children(ns, s[nd])
            && t[..nd + 1] == s[..nd + 1]
            && nd < |t| <= |ns|
  {
    hide RootOk, Bfs, PrintOrder, Children;
    BfsStep(ns, root, s, nd, level);
    Bounded(ns, root, Queued(ns, s, nd), nd + 1, NextLevels(ns, s, nd, level));
  }

  lemma HeadOfQueue(ns: seq<Proc>, root: nat, s: seq<nat>, nd: nat, level: seq<nat>)
    requires Bfs(ns, root, s, nd, level) && nd < |s|
    ensures |level| == |s| <= |ns| && s[nd] < |ns| && Up(ns, s[nd], level[nd], root)
  {
    hide Up, ParentOf;
    Bounded(ns, root, s, nd, level);
  }

  /** The breadth-first loop. The whole tree is printed exactly when it fits with its NUL; otherwise it is
      cut at its first piece that does not fit. */
  method PrintTree(f: Forest, root: nat, kbuf: array<byte>) returns (ret: int, written: nat)
    requires Linked(f.nodes, f.parent, f.children) && Marked(f.nodes, f.isLast)
    requires RootOk(f.nodes, root) && kbuf.Length > 0
    modifies kbuf
    ensures ret == if |FullText(f.nodes, root)| < kbuf.Length then 0 else EMSGSIZE
    ensures ret == 0 ==> Holding(kbuf[..], written, AllPieces(f.nodes, root))
    ensures ret != 0 ==> CutShort(kbuf[..], written, AllPieces(f.nodes, root))
  {
    hide RootOk, Up, Bfs, Order, PrintOrder, Linked, Marked, Children, Queued, NextLevels, NodePieces, Pieces,
         AllPieces, ParentOf, Concat;
    RootInRange(f.nodes, root);
    var queue: seq<nat> := [root];
    written, ret := 0, 0;
    ghost var s: seq<nat>, level: seq<nat>, nd: nat := [root], [0], 0;
    BfsStart(f.nodes, root);
    StartOfOrder(f.nodes, root);
    while queue != []
      invariant Bfs(f.nodes, root, s, nd, level) && nd <= |s| <= |f.nodes| && queue == s[nd..]
      invariant Order(f.nodes, root, s, nd, level) == PrintOrder(f.nodes, root)
      invariant forall k :: 0 <= k < |s| ==> s[k] < |f.nodes|
      invariant Holding(kbuf[..], written, Pieces(f.nodes, root, s[..nd]))
      decreases |f.nodes| - nd
    {
      var cur: nat := queue[0];
      queue := queue[1..];
      HeadOfQueue(f.nodes, root, s, nd, level);
      PiecesStep(f.nodes, root, s, nd);
      LinkedAt(f.nodes, f.parent, f.children, cur);
      QueueStep(f.nodes, root, s, nd, level);
      ghost var depth, before, now :=
        level[nd], Pieces(f.nodes, root, s[..nd]), Pieces(f.nodes, root, s[..nd + 1]);
      s, level, nd := Queued(f.nodes, s, nd), NextLevels(f.nodes, s, nd, level), nd + 1;
      NotYetAll(f.nodes, root, s, nd, level);
      var ok: bool;
      ok, written := f.PrintNode(kbuf, written, root, cur, depth, before);
      if !ok {
        CutShortLonger(kbuf[..], written, now, AllPieces(f.nodes, root));
        ret := EMSGSIZE;
        return;
      }
      queue := queue + f.children[cur];
    }
    NotYetAll(f.nodes, root, s, nd, level);
    assert s[..nd] == s;
  }

  lemma StartOfOrder(ns: seq<Proc>, root: nat)
    requires RootOk(ns, root) && Bfs(ns, root, [root], 0, [0])
    ensures Order(ns, root, [root], 0, [0]) == PrintOrder(ns, root)
    ensures Pieces(ns, root, []) == [] && Concat([]) == []
    ensures 1 <= |ns|
  {
    hide RootOk, Bfs, Order;
    RootInRange(ns, root);
  }

  /** What the caller gets of a tree printed into `room` bytes: all of it with a NUL, or the pieces before the
      first one that does not fit, and then that one's first byte unless it is a NUL in the last byte. */
  function CopiedText(ps: seq<seq<byte>>, room: nat): seq<byte>
    requires room > 0 && forall k :: 0 <= k < |ps| ==> ps[k] != []
  {
    if |Concat(ps)| < room then Concat(ps) + [0]
    else
      var j := StopPiece(ps, room);
      Concat(ps[..j]) + if |Concat(ps[..j])| + 1 < room then [ps[j][0]] else [0]
  }

  /** The whole call on a collected list. `out` is what is copied to the caller. */
  method Snapshot(ns: seq<Proc>, size: nat) returns (ret: int, out: seq<byte>)
    requires |ns| > 0 ==> RootOk(ns, RootOf(ns, |ns|))
    ensures size == 0 ==> ret == EINVAL && out == []
    ensures size > 0 && |ns| == 0 ==> ret == ESRCH && out == []
    ensures size > 0 && |ns| > 0 ==>
      var ps := AllPieces(ns, RootOf(ns, |ns|));
      && (forall k :: 0 <= k < |ps| ==> ps[k] != [] && 0 !in ps[k])
      && out == CopiedText(ps, BufSize(size))
      && ret == if |Concat(ps)| < BufSize(size) then |Concat(ps)| else EMSGSIZE
  {
    hide RootOk, AllPieces, Concat;
    out := [];
    if size == 0 {
      return EINVAL, [];
    }
    var kbuf := new byte[BufSize(size)];
    var f := new Forest(ns);
    var root := f.LinkParents();
    if root.None? {
      return ESRCH, [];
    }
    f.MarkLast();
    SomethingPrinted(ns, root.value);
    var written;
    ret, written := PrintTree(f, root.value, kbuf);
    // the test for a full buffer after the loop never fires
    assert written < kbuf.Length;
    out := kbuf[..written + 1];
    CopiedOut(kbuf[..], written, out, AllPieces(ns, root.value));
    if ret == 0 {
      ret := written;
    }
  }

  lemma CopiedOut(b: seq<byte>, w: nat, out: seq<byte>, ps: seq<seq<byte>>)
    requires w < |b| && out == b[..w + 1] && |Concat(ps)| > 0
    requires forall k :: 0 <= k < |ps| ==> ps[k] != []
    requires if |Concat(ps)| < |b| then Holding(b, w, ps) else CutShort(b, w, ps)
    ensures out == CopiedText(ps, |b|) && (|Concat(ps)| < |b| ==> w == |Concat(ps)|)
  {
    hide Concat, StopPiece, Holding, CutShort, CopiedText;
    assert out == b[..w] + [b[w]] && |b[..w]| == w;
    if |Concat(ps)| < |b| {
      WholeOut(b, w, ps);
    } else {
      CutOut(b, w, ps);
    }
  }

  lemma WholeOut(b: seq<byte>, w: nat, ps: seq<seq<byte>>)
    requires w < |b| && |Concat(ps)| > 0 && Holding(b, w, ps) && |Concat(ps)| < |b|
    requires forall k :: 0 <= k < |ps| ==> ps[k] != []
    ensures b[..w] + [b[w]] == CopiedText(ps, |b|) && w == |Concat(ps)|
  {
    hide Concat, StopPiece;
  }

  lemma CutOut(b: seq<byte>, w: nat, ps: seq<seq<byte>>)
    requires w < |b| && CutShort(b, w, ps) && |Concat(ps)| >= |b|
    requires forall k :: 0 <= k < |ps| ==> ps[k] != []
    ensures b[..w] + [b[w]] == CopiedText(ps, |b|)
  {
    hide Concat, StopPiece;
  }

  /** The copy ends in a NUL exactly when the tree fits or the piece that does not fit would have begun in
      the last byte of the buffer. */
  lemma EndsInNul(ps: seq<seq<byte>>, room: nat)
    requires room > 0 && forall k :: 0 <= k < |ps| ==> ps[k] != [] && 0 !in ps[k]
    ensures CopiedText(ps, room) != []
    ensures var out := CopiedText(ps, room);
            out[|out| - 1] == 0 <==> |Concat(ps)| < room || |Concat(ps[..StopPiece(ps, room)])| == room - 1
  {
    hide Concat, StopPiece;
  }

  /** What is copied is a prefix of the whole text, but for a NUL at its end. */
  lemma CopyIsPrefix(ps: seq<seq<byte>>, room: nat)
    requires room > 0 && forall k :: 0 <= k < |ps| ==> ps[k] != [] && 0 !in ps[k]
    ensures var out := CopiedText(ps, room);
            && 0 < |out| <= room && out[..|out| - 1] <= Concat(ps)
            && (out[|out| - 1] == 0 || out <= Concat(ps))
  {
    hide Concat, StopPiece;
    if |Concat(ps)| >= room {
      var j := StopPiece(ps, room);
      assert ps[..j + 1] == ps[..j] + [ps[j]];
      ConcatAppend(ps[..j], ps[j]);
      ConcatPrefix(ps[..j + 1], ps);
      FirstOfNext(Concat(ps[..j]), ps[j], Concat(ps));
    } else {
      FirstOfNext(Concat(ps), [0], Concat(ps) + [0]);
    }
  }

  lemma FirstOfNext(a: seq<byte>, p: seq<byte>, text: seq<byte>)
    requires a + p <= text && p != []
    ensures a <= text && a + [p[0]] <= text && forall x :: (a + [x])[..|a|] == a
  {
    assert (a + p)[|a|] == p[0];
  }

  lemma {:induction false} NoNulPieces(ns: seq<Proc>, root: nat, s: seq<nat>)
    requires forall k :: 0 <= k < |s| ==> s[k] < |ns|
    ensures forall k :: 0 <= k < |Pieces(ns, root, s)| ==> Pieces(ns, root, s)[k] != [] && 0 !in Pieces(ns, root, s)[k]
  {
    hide NodePieces;
    if s != [] {
      NoNulPieces(ns, root, s[..|s| - 1]);
      NoNulNode(ns, root, s[|s| - 1]);
    }
  }

  lemma NoNulNode(ns: seq<Proc>, root: nat, x: nat)
    requires x < |ns|
    ensures forall k :: 0 <= k < |NodePieces(ns, root, x)| ==>
              NodePieces(ns, root, x)[k] != [] && 0 !in NodePieces(ns, root, x)[k]
  {
    hide ParentOf, IsLast, Tag, Chain, IndentPieces;
    NoNulTag(ns[x]);
    if x != root && ParentOf(ns, x).Some? {
      NoNulIndent(ns, Chain(ns, root, ParentOf(ns, x).value, MAX_ANCESTORS));
    }
  }

  lemma {:induction false} NoNulIndent(ns: seq<Proc>, chain: seq<nat>)
    requires forall k :: 0 <= k < |chain| ==> chain[k] < |ns|
    ensures forall k :: 0 <= k < |IndentPieces(ns, chain)| ==>
              IndentPieces(ns, chain)[k] != [] && 0 !in IndentPieces(ns, chain)[k]
  {
    hide IsLast;
    if chain != [] {
      NoNulIndent(ns, chain[1..]);
    }
  }

  lemma {:induction false} NoNulDigits(n: nat)
    ensures 0 !in Digits(n)
  {
    if n >= 10 {
      NoNulDigits(n / 10);
    }
  }

  lemma NoNulTag(p: Proc)
    ensures Tag(p) != [] && 0 !in Tag(p)
  {
    hide Digits;
    NoNulDigits(if p.pid < 0 then -p.pid else p.pid);
  }

  lemma SomethingPrinted(ns: seq<Proc>, root: nat)
    requires RootOk(ns, root)
    ensures |Concat(AllPieces(ns, root))| > 0
    ensures forall k :: 0 <= k < |AllPieces(ns, root)| ==> AllPieces(ns, root)[k] != [] && 0 !in AllPieces(ns, root)[k]
  {
    hide RootOk, Tag, Concat;
    Listed(ns, root);
    RootInRange(ns, root);
    var s := PrintOrder(ns, root).0;
    NoNulPieces(ns, root, s);
    PiecesPrefix(ns, root, [root], s);
    assert Pieces(ns, root, [root]) == Pieces(ns, root, []) + [Tag(ns[root])];
    ConcatPrefix([Tag(ns[root])], AllPieces(ns, root));
    ConcatAppend([], Tag(ns[root]));
    assert [] + [Tag(ns[root])] == [Tag(ns[root])];
  }

  /** min(size, PROC_SNAPSHOT_BUF) */
  function BufSize(size: nat): nat {
    if size < PROC_SNAPSHOT_BUF then size else PROC_SNAPSHOT_BUF
  }

  // ---- a call whose copy has no NUL ----

  const INIT: Proc := Proc(1, 0, [105])

  lemma InitAlone()
    ensures RootOf([INIT], 1) == 0 && RootOk([INIT], 0)
    ensures AllPieces([INIT], 0) == [Tag(INIT)]
  {
    hide Tag;
    InitIsARoot([INIT], 0);
    assert ParentOf([INIT], 0) == None;
    var (s, level) := PrintOrder([INIT], 0);
    Bounded([INIT], 0, s, |s|, level);
    assert s == [0];
    assert Pieces([INIT], 0, [0]) == Pieces([INIT], 0, []) + [Tag(INIT)];
  }

  /** One process "i" with pid 1 and three bytes of room: the text "i(1)" with its line feed does not fit, and
      the copy is the single byte 'i'. */
  method NoNulInTheCopy() returns (ret: int, out: seq<byte>)
    ensures ret == EMSGSIZE && out == [105]
  {
    hide AllPieces, RootOk, RootOf;
    InitAlone();
    ret, out := Snapshot([INIT], 3);
    InitCopy();
  }

  lemma InitCopy()
    ensures |Concat([Tag(INIT)])| == 5 && CopiedText([Tag(INIT)], 3) == [105]
  {
    assert Tag(INIT) == [105, 0x28, 49, 0x29, 0x0A];
    assert [Tag(INIT)][..0] == [];
    ConcatAppend([], Tag(INIT));
    assert [] + [Tag(INIT)] == [Tag(INIT)];
    StopIsUnique([Tag(INIT)], 3, 0);
  }
}
