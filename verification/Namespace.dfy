/** The directory tree as a value: which inodes exist, what every directory lists, and the
    invariant that makes it a tree. */
module Namespace {
  import opened Bytes
  import opened BlockMap
  import opened Entries
  import opened Directory

  // ---- one directory as a finite map from names to inodes ----

  ghost predicate Unique(es: seq<Entry>) {
    forall i, j :: 0 <= i < j < |es| && es[i].ino != 0 && es[j].ino != 0 ==> es[i].name != es[j].name
  }

  /** Stored names fit their field with room for the NUL. */
  ghost predicate Proper(es: seq<Entry>) {
    forall i :: 0 <= i < |es| ==> |es[i].name| <= 27
  }

  ghost function DirMap(es: seq<Entry>): map<Str, nat> {
    map n | n in LiveNames(es) && Lookup(es, n).Some? :: Lookup(es, n).value
  }

  ghost function LiveNames(es: seq<Entry>): set<Str> {
    set i | 0 <= i < |es| && es[i].ino != 0 :: es[i].name
  }

  /** Looking a name up finds the one live slot that holds it. */
  lemma LookupFinds(es: seq<Entry>, j: nat)
    requires Unique(es) && Proper(es) && j < |es| && es[j].ino != 0
    ensures FirstHit(es, ByName(es[j].name), 0) == j && Lookup(es, es[j].name) == Some(es[j].ino)
  {
  }

  lemma LookupMisses(es: seq<Entry>, name: Str)
    requires forall j :: 0 <= j < |es| && es[j].ino != 0 ==> !Matches(es[j].name, name)
    ensures Lookup(es, name) == None
  {
  }

  /** Changing one slot so that the name it held or takes is the only one affected. */
  lemma LookupUpdate(es: seq<Entry>, j: nat, e: Entry, name: Str)
    requires Unique(es) && Proper(es) && j < |es| && |e.name| <= 27
    requires e.ino != 0 ==> forall k :: 0 <= k < |es| && k != j && es[k].ino != 0 ==> es[k].name != e.name
    ensures Unique(es[j := e]) && Proper(es[j := e])
    ensures e.ino != 0 && name == e.name ==> Lookup(es[j := e], name) == Some(e.ino)
    ensures !(e.ino != 0 && name == e.name) && es[j].ino != 0 && name == es[j].name ==> Lookup(es[j := e], name) == None
    ensures !(e.ino != 0 && name == e.name) && !(es[j].ino != 0 && name == es[j].name) ==>
              Lookup(es[j := e], name) == Lookup(es, name)
  {
    hide Lookup;
    var es' := es[j := e];
    if e.ino != 0 && name == e.name {
      LookupFinds(es', j);
    } else if k :| 0 <= k < |es| && k != j && es[k].ino != 0 && es[k].name == name {
      assert es'[k] == es[k];
      LookupFinds(es, k);
      LookupFinds(es', k);
    } else {
      LookupNone(es', name);
      if !(es[j].ino != 0 && name == es[j].name) {
        LookupNone(es, name);
      }
    }
  }

  lemma LookupNone(es: seq<Entry>, name: Str)
    requires Proper(es) && forall k :: 0 <= k < |es| && es[k].ino != 0 ==> es[k].name != name
    ensures Lookup(es, name) == None
  {
    forall k | 0 <= k < |es| && es[k].ino != 0
      ensures !Matches(es[k].name, name)
    {
    }
    LookupMisses(es, name);
  }

  /** A name that does not fit its field is never found. */
  lemma LongNameMisses(es: seq<Entry>, name: Str)
    requires Proper(es) && |name| > 27
    ensures Lookup(es, name) == None
  {
    LookupMisses(es, name);
  }

  lemma NoHit(es: seq<Entry>, name: Str)
    ensures FirstHit(es, ByName(name), 0) == |es| <==> Lookup(es, name) == None
    ensures var j := FirstHit(es, ByName(name), 0); j < |es| ==> Lookup(es, name) == Some(es[j].ino)
  {
  }

  lemma DirMapIs(es: seq<Entry>, name: Str)
    requires Unique(es) && Proper(es)
    ensures name in DirMap(es) <==> Lookup(es, name).Some?
    ensures name in DirMap(es) ==> DirMap(es)[name] == Lookup(es, name).value
  {
    hide Lookup;
    if j :| 0 <= j < |es| && es[j].ino != 0 && es[j].name == name {
      LookupFinds(es, j);
    } else {
      LookupNone(es, name);
    }
  }

  lemma AppendFree(es: seq<Entry>, e: Entry, name: Str)
    requires Unique(es) && Proper(es) && |e.name| <= 27 && e.ino != 0
    requires forall k :: 0 <= k < |es| && es[k].ino != 0 ==> es[k].name != e.name
    ensures var es' := es + ([e] + seq(SLOTS - 1, _ => FREE));
            && Unique(es') && Proper(es')
            && Lookup(es', name) == if name == e.name then Some(e.ino) else Lookup(es, name)
  {
    hide Lookup;
    var es' := es + ([e] + seq(SLOTS - 1, _ => FREE));
    assert forall k :: 0 <= k < |es'| ==> es'[k] == if k < |es| then es[k] else if k == |es| then e else FREE;
    if name == e.name {
      LookupFinds(es', |es|);
    } else if k :| 0 <= k < |es| && es[k].ino != 0 && es[k].name == name {
      LookupFinds(es, k);
      LookupFinds(es', k);
    } else {
      LookupNone(es', name);
      LookupNone(es, name);
    }
  }

  lemma NameAbsent(es: seq<Entry>, name: Str)
    requires Unique(es) && Proper(es) && Lookup(es, name) == None
    ensures forall k :: 0 <= k < |es| && es[k].ino != 0 ==> es[k].name != name
  {
    forall k | 0 <= k < |es| && es[k].ino != 0
      ensures es[k].name != name
    {
      if es[k].name == name {
        LookupFinds(es, k);
      }
    }
  }

  /** `dir_add_entry` of an absent name extends the directory's map by that name, whether it reuses
      a freed slot or grows the directory. */
  lemma AddRefines(es: seq<Entry>, name: Str, ino: nat)
    requires Unique(es) && Proper(es) && ino != 0 && |name| <= 27 && Lookup(es, name) == None
    ensures var es' := Added(es, Entry(ino, Cut(name)), []);
            Unique(es') && Proper(es') && DirMap(es') == DirMap(es)[name := ino]
  {
    hide Lookup, DirMap;
    var e := Entry(ino, name);
    var es' := Added(es, e, []);
    NameAbsent(es, name);
    var j := FirstHit(es, FreeSlot, 0);
    forall n
      ensures Unique(es') && Proper(es') && Lookup(es', n) == if n == name then Some(ino) else Lookup(es, n)
    {
      if j < |es| {
        LookupUpdate(es, j, e, n);
      } else {
        AppendFree(es, e, n);
        assert es' == es + ([e] + seq(SLOTS - 1, _ => FREE));
      }
    }
    forall n
      ensures n in DirMap(es') <==> n in DirMap(es)[name := ino]
      ensures n in DirMap(es') ==> DirMap(es')[n] == DirMap(es)[name := ino][n]
    {
      DirMapIs(es, n);
      DirMapIs(es', n);
    }
  }

  /** What `dir_add_entry` does to a directory of any number of blocks, none of them behind a hole. */
  lemma AddedToDirectory(d0: Disk, t0: Table, d: Disk, t: Table, dir: nat, name: Str, ino: nat)
    requires var es := Ents(d0, t0, dir);
             && Unique(es) && Proper(es) && ino != 0 && |name| <= 27 && Lookup(es, name) == None
             && Ents(d, t, dir) == Added(es, Entry(ino, Cut(name)), Beyond(d0, t0, dir))
    requires NoGap(d0, t0, dir)
    ensures var es, es' := Ents(d0, t0, dir), Ents(d, t, dir);
            Unique(es') && Proper(es') && DirMap(es') == DirMap(es)[name := ino]
  {
    hide Ents, Lookup, DirMap, Beyond, NoGap, Added;
    BeyondEmpty(d0, t0, dir);
    AddRefines(Ents(d0, t0, dir), name, ino);
  }

  /** `dir_remove_entry` takes exactly that name out of the map. */
  lemma RemoveRefines(es: seq<Entry>, name: Str)
    requires Unique(es) && Proper(es)
    ensures Unique(Removed(es, name)) && Proper(Removed(es, name))
    ensures |name| <= 27 ==> DirMap(Removed(es, name)) == DirMap(es) - {name}
  {
    hide Lookup, DirMap;
    var es' := Removed(es, name);
    var j := FirstHit(es, ByName(name), 0);
    if j < |es| {
      forall n
        ensures Unique(es') && Proper(es')
        ensures Lookup(es', n) == if n == es[j].name then None else Lookup(es, n)
      {
        LookupUpdate(es, j, FREE, n);
      }
    } else {
      NoHit(es, name);
    }
    forall n
      ensures |name| <= 27 ==> (n in DirMap(es') <==> n in DirMap(es) - {name})
      ensures |name| <= 27 && n in DirMap(es') ==> DirMap(es')[n] == DirMap(es)[n]
    {
      DirMapIs(es, n);
      DirMapIs(es', n);
    }
  }

  /** Removing the name just added restores the directory: exactly, when a cleared slot was reused;
      otherwise up to the block of free slots that was appended. */
  lemma RemoveUndoesAdd(es: seq<Entry>, name: Str, ino: nat)
    requires Unique(es) && Proper(es) && ino != 0 && |name| <= 27 && Lookup(es, name) == None
    requires forall j :: 0 <= j < |es| && es[j].ino == 0 ==> es[j] == FREE
    ensures var es' := Removed(Added(es, Entry(ino, Cut(name)), []), name);
            if exists j :: 0 <= j < |es| && es[j].ino == 0 then es' == es else es' == es + seq(SLOTS, _ => FREE)
  {
    hide Lookup, DirMap, Hits;
    AddRefines(es, name, ino);
    FreeHit(es);
    var e := Entry(ino, name);
    var added := Added(es, e, []);
    var j := FirstHit(es, FreeSlot, 0);
    assert j <= |es| < |added| + 1 && added[j] == e;
    LookupFinds(added, j);
  }

  lemma FreeHit(es: seq<Entry>)
    ensures FirstHit(es, FreeSlot, 0) < |es| <==> exists j :: 0 <= j < |es| && es[j].ino == 0
    ensures var j := FirstHit(es, FreeSlot, 0); j < |es| ==> es[j].ino == 0
  {
  }

  /** Names are cut to 27 bytes when stored but not when looked up: an entry is found again under the
      name it was added with exactly when that name fits. */
  lemma FoundAfterAdd(es: seq<Entry>, name: Str, ino: nat)
    requires Unique(es) && Proper(es) && ino != 0 && Lookup(es, Cut(name)) == None
    ensures Lookup(Added(es, Entry(ino, Cut(name)), []), name) == Some(ino) <==> |name| <= 27
  {
    hide Lookup, DirMap, Hits;
    var es' := Added(es, Entry(ino, Cut(name)), []);
    AddRefines(es, Cut(name), ino);
    if |name| <= 27 {
      DirMapIs(es', name);
    } else {
      LookupMisses(es', name);
    }
  }
}
