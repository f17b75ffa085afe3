/** kernel/oscdk_proc.c `proc_snapshot`: a forest from an arbitrary (pid, ppid) list, printed breadth
    first into a bounded buffer. Nodes are the indices of the collected process list. */
module ProcSnapshot {
  import opened Bytes

  const TASK_COMM_LEN: nat := 16

  /** The bytes of a process name before its NUL. */
  type Comm = c: seq<byte> | |c| < TASK_COMM_LEN && 0 !in c

  datatype Proc = Proc(pid: int, ppid: int, comm: Comm)

  const PROC_SNAPSHOT_BUF: nat := 8192
  const MAX_ANCESTORS: nat := 64
  const EINVAL: int := -22
  const ESRCH: int := -3
  const EMSGSIZE: int := -90

  // ---- the forest ----

  /** The first node from `j` on whose pid is `pid`. */
  function FindPid(ns: seq<Proc>, pid: int, j: nat): (r: nat)
    requires j <= |ns|
    ensures j <= r <= |ns|
    ensures forall k :: j <= k < r ==> ns[k].pid != pid
    ensures r < |ns| ==> ns[r].pid == pid
    decreases |ns| - j
  {
    if j == |ns| || ns[j].pid == pid then j else FindPid(ns, pid, j + 1)
  }

  /** The parent that the linking pass gives node `i`; pid 1 never gets one. */
  function ParentOf(ns: seq<Proc>, i: nat): (p: Option<nat>)
    requires i < |ns|
    ensures p.Some? ==> p.value < |ns|
  {
    var j := FindPid(ns, ns[i].ppid, 0);
    if ns[i].pid == 1 || j == |ns| then None else Some(j)
  }

  /** The parent of a process is the first of the list that has the pid it names; the one with pid 1 has none. */
  lemma ParentIs(ns: seq<Proc>, i: nat, j: nat)
    requires i < |ns|
    ensures ParentOf(ns, i) == Some(j) <==>
              && ns[i].pid != 1 && j < |ns| && ns[j].pid == ns[i].ppid
              && forall k :: 0 <= k < j ==> ns[k].pid != ns[i].ppid
  {
  }

  /** The children of `p` among the first `n` nodes, in list order. */
  function Kids(ns: seq<Proc>, p: nat, n: nat): (s: seq<nat>)
    requires n <= |ns|
    ensures forall k :: 0 <= k < |s| ==> s[k] < n && ParentOf(ns, s[k]) == Some(p)
    ensures forall i :: 0 <= i < n && ParentOf(ns, i) == Some(p) ==> i in s
    ensures forall a, b :: 0 <= a < b < |s| ==> s[a] < s[b]
  {
    if n == 0 then []
    else if ParentOf(ns, n - 1) == Some(p) then Kids(ns, p, n - 1) + [n - 1]
    else Kids(ns, p, n - 1)
  }

  function Children(ns: seq<Proc>, p: nat): seq<nat> {
    Kids(ns, p, |ns|)
  }

  /** The last node with pid 1, else the first node. */
  function RootOf(ns: seq<Proc>, n: nat): (r: nat)
    requires n <= |ns|
    ensures |ns| > 0 ==> r < |ns|
    ensures (exists i :: 0 <= i < n && ns[i].pid == 1) ==> ns[r].pid == 1 && forall i :: r < i < n ==> ns[i].pid != 1
    ensures (forall i :: 0 <= i < n ==> ns[i].pid != 1) ==> r == 0
  {
    if n == 0 then 0 else if ns[n - 1].pid == 1 then n - 1 else RootOf(ns, n - 1)
  }

  /** Following parents `k` times from `x` leads to `y`. */
  ghost predicate Up(ns: seq<Proc>, x: nat, k: nat, y: nat)
    decreases k
  {
    if k == 0 then x == y
    else x < |ns| && ParentOf(ns, x).Some? && Up(ns, ParentOf(ns, x).value, k - 1, y)
  }

  /** The root is not its own ancestor; otherwise the queue would link nodes twice. */
  ghost predicate RootOk(ns: seq<Proc>, root: nat) {
    root < |ns| && forall k: nat :: k >= 1 ==> !Up(ns, root, k, root)
  }

  /** With pid 1 in the list the root has no parent, whatever the other parent data say. */
  lemma InitIsARoot(ns: seq<Proc>, i: nat)
    requires i < |ns| && ns[i].pid == 1
    ensures RootOk(ns, RootOf(ns, |ns|))
  {
  }

  // ---- the breadth-first order ----

  ghost predicate NoDup(s: seq<nat>) {
    forall a, b :: 0 <= a < b < |s| ==> s[a] != s[b]
  }

  ghost predicate Sorted(level: seq<nat>) {
    forall a, b :: 0 <= a < b < |level| ==> level[a] <= level[b]
  }

  /** Every listed node has its level many steps to go up to the root. */
  ghost predicate Reach(ns: seq<Proc>, root: nat, s: seq<nat>, level: seq<nat>) {
    && |level| == |s|
    && forall a :: 0 <= a < |s| ==> s[a] < |ns| && Up(ns, s[a], level[a], root)
  }

  /** Nodes other than the root are listed because their parent is among the first `nd`. */
  ghost predicate FromParents(ns: seq<Proc>, root: nat, s: seq<nat>, nd: nat)
    requires nd <= |s|
  {
    forall a :: 0 <= a < |s| && s[a] != root ==>
      s[a] < |ns| && ParentOf(ns, s[a]).Some? && ParentOf(ns, s[a]).value in s[..nd]
  }

  /** Every child of the first `nd` nodes is listed. */
  ghost predicate KidsListed(ns: seq<Proc>, s: seq<nat>, nd: nat)
    requires nd <= |s|
  {
    forall x, p :: 0 <= x < |ns| && ParentOf(ns, x) == Some(p) && p in s[..nd] ==> x in s
  }

  /** `s` lists every node queued so far, the first `nd` of which have been printed: no node twice,
      the levels in order and spanning at most two levels of the queue. */
  ghost predicate Bfs(ns: seq<Proc>, root: nat, s: seq<nat>, nd: nat, level: seq<nat>) {
    && nd <= |s| && NoDup(s) && root in s
    && Reach(ns, root, s, level) && Sorted(level)
    && FromParents(ns, root, s, nd) && KidsListed(ns, s, nd)
    && (nd < |s| ==> level[|s| - 1] <= level[nd] + 1)
  }

  lemma BfsStart(ns: seq<Proc>, root: nat)
    requires root < |ns|
    ensures Bfs(ns, root, [root], 0, [0])
  {
  }

  lemma KidsAreNew(ns: seq<Proc>, root: nat, s: seq<nat>, nd: nat, level: seq<nat>, x: nat)
    requires RootOk(ns, root) && Bfs(ns, root, s, nd, level) && nd < |s|
    requires x < |ns| && ParentOf(ns, x) == Some(s[nd])
    ensures x !in s && Up(ns, x, level[nd] + 1, root)
  {
    hide ParentOf;
    assert Up(ns, s[nd], level[nd], root);
    assert Up(ns, x, level[nd] + 1, root);
  }

  /** The list and the levels after the next node has been printed and its children queued. */
  ghost function Queued(ns: seq<Proc>, s: seq<nat>, nd: nat): seq<nat>
    requires nd < |s|
  {
    s + Children(ns, s[nd])
  }

  ghost function NextLevels(ns: seq<Proc>, s: seq<nat>, nd: nat, level: seq<nat>): seq<nat>
    requires nd < |s| == |level|
  {
    level + seq(|Children(ns, s[nd])|, _ => level[nd] + 1)
  }

  lemma StepLists(s: seq<nat>, kids: seq<nat>, nd: nat)
    requires nd < |s| && NoDup(s) && NoDup(kids) && forall k :: 0 <= k < |kids| ==> kids[k] !in s
    ensures NoDup(s + kids) && (s + kids)[..nd + 1] == s[..nd] + [s[nd]]
  {
  }

  lemma StepLevels(ns: seq<Proc>, root: nat, s: seq<nat>, kids: seq<nat>, nd: nat, level: seq<nat>)
    requires nd < |s| && Reach(ns, root, s, level) && Sorted(level) && level[|s| - 1] <= level[nd] + 1
    requires forall k :: 0 <= k < |kids| ==> kids[k] < |ns| && Up(ns, kids[k], level[nd] + 1, root)
    ensures var level' := level + seq(|kids|, _ => level[nd] + 1);
            && Reach(ns, root, s + kids, level') && Sorted(level')
            && (nd + 1 < |s + kids| ==> level'[|s + kids| - 1] <= level'[nd + 1] + 1)
  {
    hide Up;
  }

  lemma StepParents(ns: seq<Proc>, root: nat, s: seq<nat>, kids: seq<nat>, nd: nat)
    requires nd < |s| && s[nd] < |ns| && FromParents(ns, root, s, nd) && KidsListed(ns, s, nd)
    requires kids == Children(ns, s[nd]) && (s + kids)[..nd + 1] == s[..nd] + [s[nd]]
    ensures FromParents(ns, root, s + kids, nd + 1) && KidsListed(ns, s + kids, nd + 1)
  {
    hide ParentOf;
    var s' := s + kids;
    forall a | 0 <= a < |s'| && s'[a] != root
      ensures s'[a] < |ns| && ParentOf(ns, s'[a]).Some? && ParentOf(ns, s'[a]).value in s'[..nd + 1]
    {
      if a < |s| {
        assert s'[a] == s[a];
      } else {
        assert s'[a] == kids[a - |s|];
      }
    }
    forall x, p | 0 <= x < |ns| && ParentOf(ns, x) == Some(p) && p in s'[..nd + 1]
      ensures x in s'
    {
      if p != s[nd] {
        assert p in s[..nd];
        assert x in s;
      } else {
        assert x in kids;
      }
    }
  }

  /** Printing the next node and queueing its children: no node is ever queued twice. */
  lemma BfsStep(ns: seq<Proc>, root: nat, s: seq<nat>, nd: nat, level: seq<nat>)
    requires RootOk(ns, root) && Bfs(ns, root, s, nd, level) && nd < |s|
    ensures Bfs(ns, root, Queued(ns, s, nd), nd + 1, NextLevels(ns, s, nd, level))
  {
    hide ParentOf, RootOk, Up, Reach, Sorted, FromParents, KidsListed;
    var kids := Children(ns, s[nd]);
    ReachAt(ns, root, s, level, nd);
    forall k | 0 <= k < |kids|
      ensures kids[k] !in s && kids[k] < |ns| && Up(ns, kids[k], level[nd] + 1, root)
    {
      KidsAreNew(ns, root, s, nd, level, kids[k]);
    }
    StepLists(s, kids, nd);
    StepLevels(ns, root, s, kids, nd, level);
    StepParents(ns, root, s, kids, nd);
  }

  lemma ReachAt(ns: seq<Proc>, root: nat, s: seq<nat>, level: seq<nat>, a: nat)
    requires Reach(ns, root, s, level) && a < |s|
    ensures |level| == |s| && s[a] < |ns| && Up(ns, s[a], level[a], root)
  {
  }

  // ---- the whole order ----

  /** A list without repetition of node indices is no longer than the list of nodes. */
  lemma Bounded(ns: seq<Proc>, root: nat, s: seq<nat>, nd: nat, level: seq<nat>)
    requires Bfs(ns, root, s, nd, level)
    ensures |s| <= |ns|
  {
    hide Up, ParentOf;
    Pigeonhole(s, 0, |ns|);
  }

  /** The order in which the loop prints, run to the end of the queue from any point. */
  ghost function Order(ns: seq<Proc>, root: nat, s: seq<nat>, nd: nat, level: seq<nat>): (r: (seq<nat>, seq<nat>))
    requires RootOk(ns, root) && Bfs(ns, root, s, nd, level)
    ensures Bfs(ns, root, r.0, |r.0|, r.1) && s <= r.0
    decreases |ns| - nd
  {
    hide Bfs, RootOk;
    Bounded(ns, root, s, nd, level);
    BfsSizes(ns, root, s, nd, level);
    if nd == |s| then (s, level)
    else
      BfsStep(ns, root, s, nd, level);
      Order(ns, root, Queued(ns, s, nd), nd + 1, NextLevels(ns, s, nd, level))
  }

  lemma BfsSizes(ns: seq<Proc>, root: nat, s: seq<nat>, nd: nat, level: seq<nat>)
    requires Bfs(ns, root, s, nd, level)
    ensures nd <= |s| == |level|
  {
    hide Up, ParentOf;
  }

  /** The complete print order of a process list. */
  ghost function PrintOrder(ns: seq<Proc>, root: nat): (r: (seq<nat>, seq<nat>))
    requires RootOk(ns, root)
    ensures Bfs(ns, root, r.0, |r.0|, r.1) && [root] <= r.0
  {
    hide RootOk;
    RootInRange(ns, root);
    BfsStart(ns, root);
    Order(ns, root, [root], 0, [0])
  }

  lemma RootInRange(ns: seq<Proc>, root: nat)
    requires RootOk(ns, root)
    ensures root < |ns|
  {
  }

  /** The order holds exactly the nodes whose parent chain reaches the root, each once, by
      non-decreasing depth. */
  lemma OrderIsReachable(ns: seq<Proc>, root: nat, x: nat)
    requires RootOk(ns, root) && x < |ns|
    ensures var (s, level) := PrintOrder(ns, root);
            && NoDup(s) && Sorted(level) && Reach(ns, root, s, level)
            && (x in s <==> exists k: nat :: Up(ns, x, k, root))
  {
    hide RootOk, Up, Reach, PrintOrder;
    var (s, level) := PrintOrder(ns, root);
    if x in s {
      var a :| 0 <= a < |s| && s[a] == x;
      ReachAt(ns, root, s, level, a);
    }
    if k: nat :| Up(ns, x, k, root) {
      ReachableListed(ns, root, s, level, x, k);
    }
  }

  lemma {:induction false} ReachableListed(ns: seq<Proc>, root: nat, s: seq<nat>, level: seq<nat>, x: nat, k: nat)
    requires Bfs(ns, root, s, |s|, level) && x < |ns| && Up(ns, x, k, root)
    ensures x in s
    decreases k
  {
    hide ParentOf;
    if k > 0 {
      ReachableListed(ns, root, s, level, ParentOf(ns, x).value, k - 1);
      assert s[..|s|] == s;
    }
  }

  // ---- breadth first ----

  /** Of two listed nodes the earlier has the earlier parent, or the same parent and the earlier place in the list of
      processes. */
  ghost predicate Earlier(ns: seq<Proc>, s: seq<nat>, a: nat, b: nat) {
    forall p, q :: 0 <= p < |s| && 0 <= q < |s| && a < b < |s| && s[a] < |ns| && s[b] < |ns|
                   && ParentOf(ns, s[a]) == Some(s[p]) && ParentOf(ns, s[b]) == Some(s[q]) ==>
      p < q || (p == q && s[a] < s[b])
  }

  ghost predicate BreadthFirst(ns: seq<Proc>, s: seq<nat>) {
    forall a: nat, b: nat :: 1 <= a < b < |s| ==> Earlier(ns, s, a, b)
  }

  lemma ParentPlace(ns: seq<Proc>, root: nat, s: seq<nat>, kids: seq<nat>, nd: nat, a: nat, p: nat)
    requires nd < |s| && FromParents(ns, root, s, nd) && NoDup(s + kids) && [root] <= s
    requires 1 <= a < |s| && p < |s + kids| && s[a] < |ns| && ParentOf(ns, s[a]) == Some((s + kids)[p])
    ensures p < nd
  {
    hide ParentOf;
    var t := s + kids;
    assert s[a] != root by {
      assert t[0] == root && t[a] == s[a];
    }
    var q :| 0 <= q < nd && s[q] == t[p];
    assert t[q] == t[p];
  }

  lemma EarlierStep(ns: seq<Proc>, root: nat, s: seq<nat>, kids: seq<nat>, nd: nat, a: nat, b: nat)
    requires nd < |s| && FromParents(ns, root, s, nd) && NoDup(s + kids) && [root] <= s && BreadthFirst(ns, s)
    requires kids == Children(ns, s[nd]) && 1 <= a < b < |s + kids|
    ensures Earlier(ns, s + kids, a, b)
  {
    hide ParentOf, FromParents, NoDup, BreadthFirst, Children;
    var t := s + kids;
    KidsRise(ns, s[nd]);
    forall p, q | 0 <= p < |t| && 0 <= q < |t| && t[a] < |ns| && t[b] < |ns|
                  && ParentOf(ns, t[a]) == Some(t[p]) && ParentOf(ns, t[b]) == Some(t[q])
      ensures p < q || (p == q && t[a] < t[b])
    {
      if a < |s| {
        ParentPlace(ns, root, s, kids, nd, a, p);
      } else {
        SamePlace(t, p, nd, kids, a - |s|, s);
      }
      if b < |s| {
        ParentPlace(ns, root, s, kids, nd, b, q);
        EarlierAt(ns, s, a, b, p, q);
      } else {
        SamePlace(t, q, nd, kids, b - |s|, s);
      }
    }
  }

  lemma KidsRise(ns: seq<Proc>, p: nat)
    ensures var s := Children(ns, p);
            && (forall a, b :: 0 <= a < b < |s| ==> s[a] < s[b])
            && forall k :: 0 <= k < |s| ==> s[k] < |ns| && ParentOf(ns, s[k]) == Some(p)
  {
    hide ParentOf;
  }

  lemma SamePlace(t: seq<nat>, p: nat, nd: nat, kids: seq<nat>, k: nat, s: seq<nat>)
    requires t == s + kids && NoDup(t) && p < |t| && nd < |s| && k < |kids| && t[p] == s[nd]
    ensures p == nd && t[|s| + k] == kids[k]
  {
    assert t[nd] == t[p];
  }

  lemma EarlierAt(ns: seq<Proc>, s: seq<nat>, a: nat, b: nat, p: nat, q: nat)
    requires BreadthFirst(ns, s) && 1 <= a < b < |s| && p < |s| && q < |s| && s[a] < |ns| && s[b] < |ns|
    requires ParentOf(ns, s[a]) == Some(s[p]) && ParentOf(ns, s[b]) == Some(s[q])
    ensures p < q || (p == q && s[a] < s[b])
  {
    hide ParentOf;
    assert Earlier(ns, s, a, b);
  }

  lemma {:induction false} OrderKeepsEarlier(ns: seq<Proc>, root: nat, s: seq<nat>, nd: nat, level: seq<nat>)
    requires RootOk(ns, root) && Bfs(ns, root, s, nd, level) && [root] <= s && BreadthFirst(ns, s)
    ensures BreadthFirst(ns, Order(ns, root, s, nd, level).0)
    decreases |ns| - nd
  {
    hide RootOk, Bfs, Earlier, Children;
    Bounded(ns, root, s, nd, level);
    BfsSizes(ns, root, s, nd, level);
    if nd != |s| {
      BfsStep(ns, root, s, nd, level);
      var t := Queued(ns, s, nd);
      StepParts(ns, root, s, nd, level);
      forall a: nat, b: nat | 1 <= a < b < |t|
        ensures Earlier(ns, t, a, b)
      {
        EarlierStep(ns, root, s, Children(ns, s[nd]), nd, a, b);
      }
      OrderKeepsEarlier(ns, root, t, nd + 1, NextLevels(ns, s, nd, level));
    }
  }

  lemma StepParts(ns: seq<Proc>, root: nat, s: seq<nat>, nd: nat, level: seq<nat>)
    requires RootOk(ns, root) && Bfs(ns, root, s, nd, level) && nd < |s|
    ensures FromParents(ns, root, s, nd) && NoDup(Queued(ns, s, nd))
  {
    hide RootOk, FromParents, KidsListed, Reach;
    BfsStep(ns, root, s, nd, level);
  }

  /** The print order begins with the root and is breadth first: nodes come in the order of their parents, and children
      of one parent in the order of the list of processes. */
  lemma OrderIsBreadthFirst(ns: seq<Proc>, root: nat)
    requires RootOk(ns, root)
    ensures [root] <= PrintOrder(ns, root).0 && BreadthFirst(ns, PrintOrder(ns, root).0)
  {
    hide RootOk, Bfs;
    RootInRange(ns, root);
    BfsStart(ns, root);
    OrderKeepsEarlier(ns, root, [root], 0, [0]);
  }
}
