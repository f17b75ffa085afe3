/** The name space as a set of triples: directory, name, and the inode that the name stands for there. */
module Listing {
  import opened Bytes
  import opened Layout
  import opened Entries
  import opened Directory
  import opened Namespace
  import opened Trees

  /** Every used slot of every directory, "." and ".." among them. */
  ghost function Edges(tr: Tree): set<(nat, Str, nat)> {
    set d, j | d in tr.ents && 0 <= j < |tr.ents[d]| && tr.ents[d][j].ino != 0 :: (d, tr.ents[d][j].name,
                                                                                   tr.ents[d][j].ino)
  }

  lemma EdgeHasSlot(tr: Tree, d: nat, name: Str, i: nat)
    ensures (d, name, i) in Edges(tr) <==> i != 0 && d in tr.ents && Entry(i, name) in tr.ents[d]
  {
    if i != 0 && d in tr.ents && Entry(i, name) in tr.ents[d] {
      var j :| 0 <= j < |tr.ents[d]| && tr.ents[d][j] == Entry(i, name);
      assert (d, tr.ents[d][j].name, tr.ents[d][j].ino) in Edges(tr);
    }
  }

  /** A name that is found is one that stands in a slot. */
  lemma EdgeIsLookup(tr: Tree, link: Links, depth: Depths, d: nat, name: Str, i: nat)
    requires TreeOk(tr, link, depth)
    ensures (d, name, i) in Edges(tr) <==> d in tr.ents && Lookup(tr.ents[d], name) == Some(i)
    ensures (d, name, i) in Edges(tr) ==> i in tr.kind
  {
    hide TreeOk, Lookup, Unique, Proper, DirOk, Edges;
    EdgeHasSlot(tr, d, name, i);
    if d in tr.ents {
      DirFacts(tr, link, depth, d);
      DirFacts(tr, link, depth, Parent(link, d));
      DirOkProper(link, d, tr.ents[d]);
      DirOkUnique(link, d, tr.ents[d]);
      SlotIsLookup(tr.ents[d], name, i);
      if Lookup(tr.ents[d], name) == Some(i) {
        FoundIsLive(tr, link, depth, d, name, i);
      }
    }
  }

  lemma SlotIsLookup(es: seq<Entry>, name: Str, i: nat)
    requires Unique(es) && Proper(es)
    ensures Lookup(es, name) == Some(i) <==> i != 0 && Entry(i, name) in es
  {
    hide Lookup, Unique;
    NoHit(es, name);
    var k := FirstHit(es, ByName(name), 0);
    if Lookup(es, name) == Some(i) {
      assert Matches(es[k].name, name) && |es[k].name| <= 27;
      assert es[k] == Entry(i, name);
    }
    if i != 0 && Entry(i, name) in es {
      var j :| 0 <= j < |es| && es[j] == Entry(i, name);
      LookupFinds(es, j);
    }
  }

  lemma FoundIsLive(tr: Tree, link: Links, depth: Depths, d: nat, name: Str, i: nat)
    requires TreeOk(tr, link, depth) && d in tr.ents && Lookup(tr.ents[d], name) == Some(i)
    ensures i in tr.kind && i != 0
  {
    hide Unique, DirsOk, KindsOk, LinksOk, DepthOk;
    DirFacts(tr, link, depth, d);
    DirFacts(tr, link, depth, Parent(link, d));
    var es := tr.ents[d];
    NoHit(es, name);
    var j := FirstHit(es, ByName(name), 0);
    if j >= 2 {
      assert SlotOk(link, d, j, es[j]);
      LinkFacts(tr, link, depth, es[j].ino);
    }
  }

  ghost predicate IsDir(tr: Tree, i: nat) {
    i in tr.kind && tr.kind[i] == Dir
  }

  ghost predicate IsFile(tr: Tree, i: nat) {
    i in tr.kind && tr.kind[i] == File
  }

  lemma DirHasEnts(tr: Tree, link: Links, depth: Depths, i: nat)
    requires TreeOk(tr, link, depth)
    ensures IsDir(tr, i) <==> i in tr.ents
    ensures i in tr.kind ==> IsDir(tr, i) || IsFile(tr, i)
  {
    hide LinksOk, DirsOk, DepthOk;
  }

  /** Some slot of directory `d` holds the name. */
  ghost predicate Listed(tr: Tree, d: nat, name: Str) {
    exists i: nat :: (d, name, i) in Edges(tr)
  }

  lemma ListedIsMapped(tr: Tree, link: Links, depth: Depths, d: nat, name: Str)
    requires TreeOk(tr, link, depth) && d in tr.ents
    ensures Listed(tr, d, name) <==> name in DirMap(tr.ents[d])
    ensures Listed(tr, d, name) <==> Lookup(tr.ents[d], name).Some?
  {
    hide TreeOk, Lookup, Unique, Proper, DirOk, Edges, DirMap;
    DirFacts(tr, link, depth, d);
    DirFacts(tr, link, depth, Parent(link, d));
    DirOkProper(link, d, tr.ents[d]);
    DirOkUnique(link, d, tr.ents[d]);
    DirMapIs(tr.ents[d], name);
    if Listed(tr, d, name) {
      var i: nat :| (d, name, i) in Edges(tr);
      EdgeIsLookup(tr, link, depth, d, name, i);
    }
    if Lookup(tr.ents[d], name).Some? {
      EdgeIsLookup(tr, link, depth, d, name, Lookup(tr.ents[d], name).value);
    }
  }

  /** A name stands for one inode. */
  lemma OneEdge(tr: Tree, link: Links, depth: Depths, d: nat, name: Str, i: nat, k: nat)
    requires TreeOk(tr, link, depth) && (d, name, i) in Edges(tr) && (d, name, k) in Edges(tr)
    ensures i == k
  {
    hide TreeOk, Lookup, Edges;
    EdgeIsLookup(tr, link, depth, d, name, i);
    EdgeIsLookup(tr, link, depth, d, name, k);
  }

  /** The dots of a directory. */
  lemma DotEdges(tr: Tree, link: Links, depth: Depths, d: nat, i: nat)
    requires TreeOk(tr, link, depth) && d in tr.ents
    ensures (d, DOT, i) in Edges(tr) <==> i == d
    ensures (d, DOTDOT, i) in Edges(tr) <==> i == Parent(link, d)
  {
    hide TreeOk, Lookup, Edges, Unique;
    DirFacts(tr, link, depth, d);
    DirFacts(tr, link, depth, Parent(link, d));
    var p := Parent(link, d);
    assert tr.ents[d][0] == Entry(d, DOT) && tr.ents[d][1] == Entry(p, DOTDOT);
    EdgeHasSlot(tr, d, DOT, d);
    EdgeHasSlot(tr, d, DOTDOT, p);
    if (d, DOT, i) in Edges(tr) {
      OneEdge(tr, link, depth, d, DOT, i, d);
    }
    if (d, DOTDOT, i) in Edges(tr) {
      OneEdge(tr, link, depth, d, DOTDOT, i, p);
    }
  }

  /** Every other name is the one link of its inode. */
  lemma OtherEdge(tr: Tree, link: Links, depth: Depths, d: nat, name: Str, i: nat)
    requires TreeOk(tr, link, depth) && (d, name, i) in Edges(tr) && name != DOT && name != DOTDOT
    ensures i in link && link[i].0 == d && i != ROOT_INODE && NameOk(name)
    ensures link[i].1 < |tr.ents[d]| && tr.ents[d][link[i].1].name == name
  {
    hide TreeOk, Lookup, Edges, Unique, DirsOk;
    EdgeHasSlot(tr, d, name, i);
    DirFacts(tr, link, depth, d);
    var j :| 0 <= j < |tr.ents[d]| && tr.ents[d][j] == Entry(i, name);
    assert SlotOk(link, d, j, tr.ents[d][j]);
    LinkFacts(tr, link, depth, i);
  }

  /** Naming a new inode adds its name, and its dots when it is a directory. */
  lemma EdgesAfterAdd(tr: Tree, link: Links, depth: Depths, d: nat, name: Str, i: nat, k: Kind)
    requires TreeOk(tr, link, depth) && d in tr.ents && 2 <= i < TOTAL_INODES && i !in tr.kind
    ensures Edges(AddNode(tr, d, name, i, k))
            == Edges(tr) + {(d, name, i)} + if k == Dir then {(i, DOT, i), (i, DOTDOT, d)} else {}
  {
    hide TreeOk, Unique, FreePos, Added, Edges;
    DirFacts(tr, link, depth, d);
    AbsentLink(tr, link, depth, i);
    RoomForEntry(tr, link, depth, d, i);
    AddedAtFree(tr.ents[d], Entry(i, name));
    NoEntsYet(tr, link, depth, i);
    var tr', pos := AddNode(tr, d, name, i, k), FreePos(tr.ents[d]);
    forall x: nat, n: Str, y: nat
      ensures (x, n, y) in Edges(tr') <==>
                || (x, n, y) in Edges(tr) || (x, n, y) == (d, name, i)
                || (k == Dir && ((x, n, y) == (i, DOT, i) || (x, n, y) == (i, DOTDOT, d)))
    {
      EdgeHasSlot(tr, x, n, y);
      EdgeHasSlot(tr', x, n, y);
      if y == 0 {
      } else if x == d {
        StoredSlots(tr.ents[d], pos, Entry(i, name), Entry(y, n));
      } else if x == i {
        NewSlots(i, d, Entry(y, n));
      }
    }
    SameTriples(Edges(tr'), Edges(tr) + {(d, name, i)} + if k == Dir then {(i, DOT, i), (i, DOTDOT, d)} else {});
  }

  lemma SameTriples(a: set<(nat, Str, nat)>, b: set<(nat, Str, nat)>)
    requires forall x: nat, n: Str, y: nat :: (x, n, y) in a <==> (x, n, y) in b
    ensures a == b
  {
    forall t: (nat, Str, nat)
      ensures t in a <==> t in b
    {
      assert t == (t.0, t.1, t.2);
    }
  }

  lemma NoEntsYet(tr: Tree, link: Links, depth: Depths, i: nat)
    requires TreeOk(tr, link, depth) && i !in tr.kind
    ensures i !in tr.ents
  {
    hide LinksOk, DirsOk, DepthOk;
  }

  lemma StoredSlots(es: seq<Entry>, pos: nat, e: Entry, x: Entry)
    requires pos < |es| && es[pos] == FREE && x.ino != 0
    ensures x in es[pos := e] <==> x in es || x == e
  {
    var es' := es[pos := e];
    if x in es {
      var j :| 0 <= j < |es| && es[j] == x;
      assert es'[j] == x;
    }
    assert es'[pos] == e;
  }

  lemma NewSlots(i: nat, d: nat, x: Entry)
    requires x.ino != 0
    ensures x in NewDir(i, d) <==> x == Entry(i, DOT) || x == Entry(d, DOTDOT)
  {
    var es := NewDir(i, d);
    assert es[0] == Entry(i, DOT) && es[1] == Entry(d, DOTDOT);
    assert forall j :: 2 <= j < |es| ==> es[j] == FREE;
  }

  /** Taking an inode away takes its name, and its dots when it was a directory. */
  lemma EdgesAfterRemove(tr: Tree, link: Links, depth: Depths, d: nat, name: Str, i: nat)
    requires TreeOk(tr, link, depth) && (d, name, i) in Edges(tr) && name != DOT && name != DOTDOT
    requires i in tr.ents ==> EmptyDir(tr.ents[i])
    ensures d in tr.ents
    ensures Edges(RemoveNode(tr, d, name, i))
            == Edges(tr) - {(d, name, i)} - if i in tr.ents then {(i, DOT, i), (i, DOTDOT, d)} else {}
  {
    hide TreeOk, Unique, Proper, Removed, Lookup, Edges, EmptyDir, DirOk;
    EdgeHasSlot(tr, d, name, i);
    EdgeIsLookup(tr, link, depth, d, name, i);
    OtherEdge(tr, link, depth, d, name, i);
    DirFacts(tr, link, depth, d);
    DirFacts(tr, link, depth, Parent(link, d));
    DirOkProper(link, d, tr.ents[d]);
    DirOkUnique(link, d, tr.ents[d]);
    NamedLink(tr, link, depth, d, name, i);
    var tr' := RemoveNode(tr, d, name, i);
    forall x: nat, n: Str, y: nat
      ensures (x, n, y) in Edges(tr') <==>
                && (x, n, y) in Edges(tr) && (x, n, y) != (d, name, i)
                && !(i in tr.ents && ((x, n, y) == (i, DOT, i) || (x, n, y) == (i, DOTDOT, d)))
    {
      EdgeHasSlot(tr, x, n, y);
      EdgeHasSlot(tr', x, n, y);
      if y == 0 {
      } else if x == d {
        ClearedSlots(tr.ents[d], name, i, Entry(y, n));
      } else if x == i && i in tr.ents {
        DirFacts(tr, link, depth, i);
        EmptySlots(link, i, tr.ents[i], Entry(y, n));
      }
    }
    SameTriples(Edges(tr'),
                Edges(tr) - {(d, name, i)} - if i in tr.ents then {(i, DOT, i), (i, DOTDOT, d)} else {});
  }

  lemma ClearedSlots(es: seq<Entry>, name: Str, i: nat, x: Entry)
    requires Unique(es) && Proper(es) && Lookup(es, name) == Some(i) && x.ino != 0
    ensures x in Removed(es, name) <==> x in es && x != Entry(i, name)
  {
    hide Lookup, FirstHit;
    NoHit(es, name);
    SlotIsLookup(es, name, i);
    var j :| 0 <= j < |es| && es[j] == Entry(i, name);
    LookupFinds(es, j);
    var es' := es[j := FREE];
    assert Removed(es, name) == es';
    if x in es && x != Entry(i, name) {
      var k :| 0 <= k < |es| && es[k] == x;
      assert es'[k] == x;
    }
  }

  lemma EmptySlots(link: Links, i: nat, es: seq<Entry>, x: Entry)
    requires DirOk(link, i, es) && EmptyDir(es) && x.ino != 0
    ensures x in es <==> x == Entry(i, DOT) || x == Entry(Parent(link, i), DOTDOT)
  {
    hide Unique;
    assert es[0] == Entry(i, DOT) && es[1] == Entry(Parent(link, i), DOTDOT);
  }

  /** No name stands in the directory but its dots. */
  ghost predicate OnlyDots(tr: Tree, d: nat) {
    forall n: Str :: Listed(tr, d, n) ==> n == DOT || n == DOTDOT
  }

  /** A directory is empty when it lists nothing but its dots. */
  lemma EmptyMeans(tr: Tree, link: Links, depth: Depths, d: nat)
    requires TreeOk(tr, link, depth) && d in tr.ents
    ensures EmptyDir(tr.ents[d]) <==> OnlyDots(tr, d)
  {
    hide TreeOk, Edges, Unique;
    var es := tr.ents[d];
    DirFacts(tr, link, depth, d);
    if EmptyDir(es) {
      forall n: Str | Listed(tr, d, n)
        ensures n == DOT || n == DOTDOT
      {
        var y: nat :| (d, n, y) in Edges(tr);
        EdgeHasSlot(tr, d, n, y);
        EmptySlots(link, d, es, Entry(y, n));
      }
    } else {
      var j :| 2 <= j < |es| && es[j] != FREE;
      assert SlotOk(link, d, j, es[j]);
      EdgeHasSlot(tr, d, es[j].name, es[j].ino);
      assert Listed(tr, d, es[j].name);
    }
  }
}
