/** How many blocks a write needs: the size of the part of the pointer tree that it has to add. */
module Demand {
  import opened Bytes
  import opened Layout
  import opened Space

  /** The locations on the way from the root to `l`, with `l` itself. */
  ghost function Way(l: Loc): set<Loc> {
    match l
    case Slot(_, _) => {l}
    case Sub(p, _) => Way(p) + {l}
  }

  /** All locations that must be named for the logical blocks lo .. hi - 1 to be mapped. */
  ghost function Ways(ino: nat, lo: nat, hi: nat): set<Loc>
    decreases if lo < hi then hi - lo else 0
  {
    if lo >= hi then {} else Way(LocOf(ino, lo)) + Ways(ino, lo + 1, hi)
  }

  /** The blocks that mapping lo .. hi - 1 takes, data and pointer blocks. */
  ghost function Need(named: set<Loc>, ino: nat, lo: nat, hi: nat): nat {
    |Ways(ino, lo, hi) - named|
  }

  lemma {:induction false} NamedWay(named: set<Loc>, l: Loc)
    requires UpClosed(named) && l in named
    ensures Way(l) <= named
  {
    if l.Sub? {
      NamedWay(named, l.parent);
    }
  }

  lemma AddOne(a: set<Loc>, b: set<Loc>, l: Loc)
    requires a == b + {l} && l !in b
    ensures |a| == |b| + 1
  {
  }

  lemma {:induction false} WayIsShort(l: Loc, m: Loc)
    requires m in Way(l)
    ensures Depth(m) <= Depth(l) && (m != l ==> l.Sub? && m in Way(l.parent))
  {
    if l.Sub? && m != l {
      WayIsShort(l.parent, m);
    }
  }

  /** One block is mapped exactly when there is room for all that is missing on its way; otherwise all the
      room that is left goes into pointer blocks. */
  lemma {:induction false} LinkTakes(named: set<Loc>, free: nat, l: Loc)
    requires UpClosed(named)
    ensures var (ok, named', free') := Link(named, free, l);
            && UpClosed(named') && named <= named' <= named + Way(l)
            && |named'| + free' == |named| + free
            && ok == (|Way(l) - named| <= free)
            && (if ok then named' == named + Way(l) && free' == free - |Way(l) - named| else free' == 0)
  {
    if l in named {
      NamedWay(named, l);
      assert Way(l) - named == {};
      assert named + Way(l) == named;
    } else {
      match l
      case Slot(_, _) =>
        assert Way(l) - named == {l};
        AddOne(named + {l}, named, l);
      case Sub(p, _) =>
        LinkTakes(named, free, p);
        var (ok, named1, free1) := Link(named, free, p);
        MissingBelow(named, l);
        if ok {
          LinkedBelow(named, named1, l);
        }
    }
  }

  lemma MissingBelow(named: set<Loc>, l: Loc)
    requires l.Sub? && l !in named
    ensures |Way(l) - named| == |Way(l.parent) - named| + 1
    ensures Way(l.parent) <= Way(l)
  {
    NotOnTheWay(l);
    AddOne(Way(l) - named, Way(l.parent) - named, l);
  }

  lemma LinkedBelow(named: set<Loc>, named1: set<Loc>, l: Loc)
    requires l.Sub? && UpClosed(named1) && named1 == named + Way(l.parent) && l !in named
    ensures named1 + {l} == named + Way(l) && |named1 + {l}| == |named1| + 1 && UpClosed(named1 + {l})
  {
    hide UpClosed;
    NotOnTheWay(l);
    AddOne(named1 + {l}, named1, l);
    LinkedClosed(named1, l, true);
  }

  lemma NotOnTheWay(l: Loc)
    requires l.Sub?
    ensures l !in Way(l.parent)
  {
    if l in Way(l.parent) {
      WayIsShort(l.parent, l);
    }
  }

  lemma {:induction false} OnTheWay(l: Loc)
    ensures l in Way(l)
  {
  }

  lemma LinkedClosed(named: set<Loc>, l: Loc, ok: bool)
    requires UpClosed(named) && l.Sub? && (ok ==> Way(l.parent) <= named)
    ensures ok ==> UpClosed(named + {l})
  {
    OnTheWay(l.parent);
  }

  lemma SplitCount(a: set<Loc>, b: set<Loc>, named: set<Loc>)
    ensures |(a + b) - named| == |a - named| + |b - (named + a)|
  {
    assert (a + b) - named == (a - named) + (b - (named + a));
  }

  lemma {:induction false} WaysLast(ino: nat, lo: nat, hi: nat)
    requires lo <= hi
    ensures Ways(ino, lo, hi + 1) == Ways(ino, lo, hi) + Way(LocOf(ino, hi))
    decreases hi - lo
  {
    hide Way, LocOf;
    if lo < hi {
      WaysLast(ino, lo + 1, hi);
    }
  }

  lemma NeedStep(named: set<Loc>, ino: nat, lo: nat, hi: nat)
    requires lo < hi
    ensures Need(named, ino, lo, hi)
            == |Way(LocOf(ino, lo)) - named| + Need(named + Way(LocOf(ino, lo)), ino, lo + 1, hi)
  {
    hide Way, LocOf;
    SplitCount(Way(LocOf(ino, lo)), Ways(ino, lo + 1, hi), named);
  }

  lemma NeedNothing(named: set<Loc>, ino: nat, lo: nat)
    ensures Need(named, ino, lo, lo) == 0
  {
    assert Ways(ino, lo, lo) - named == {};
  }

  /** Mapping the blocks lo .. hi - 1 in turn succeeds exactly when there is room for all that is missing, and
      takes exactly that; otherwise it stops at the first block for which the room does not suffice, with
      nothing left. */
  lemma {:induction false} LinkAllTakes(named: set<Loc>, free: nat, ino: nat, lo: nat, hi: nat)
    requires UpClosed(named) && lo <= hi
    ensures var (k, named', free') := LinkAll(named, free, ino, lo, hi);
            && UpClosed(named') && named <= named' <= named + Ways(ino, lo, hi)
            && |named'| + free' == |named| + free
            && (Need(named, ino, lo, hi) <= free ==>
                  k == hi && named' == named + Ways(ino, lo, hi) && free' == free - Need(named, ino, lo, hi))
            && (Need(named, ino, lo, hi) > free ==>
                  lo <= k < hi && Need(named, ino, lo, k) <= free < Need(named, ino, lo, k + 1) && free' == 0)
    decreases hi - lo
  {
    hide Way, LocOf, Link, UpClosed, Need;
    if lo == hi {
      NeedNothing(named, ino, lo);
    } else {
      var w := Way(LocOf(ino, lo));
      LinkTakes(named, free, LocOf(ino, lo));
      NeedStep(named, ino, lo, hi);
      NeedNothing(named, ino, lo);
      NeedStep(named, ino, lo, lo + 1);
      NeedNothing(named + w, ino, lo + 1);
      var (ok, named1, free1) := Link(named, free, LocOf(ino, lo));
      if ok {
        LinkAllTakes(named1, free1, ino, lo + 1, hi);
        var (k, _, _) := LinkAll(named1, free1, ino, lo + 1, hi);
        if lo < k < hi {
          NeedStep(named, ino, lo, k);
          NeedStep(named, ino, lo, k + 1);
        }
      }
    }
  }

  // ---- the closed form for a file without holes ----

  /** The blocks of a file of `n` data blocks without holes: the data blocks, the indirect block, the
      double-indirect block and the indirect blocks below it. */
  function BlocksNeeded(n: nat): nat
    requires n <= DOUBLE_END
  {
    n + (if n > DIRECT then 1 else 0) + (if n > SINGLE_END then 1 + (n - SINGLE_END + PTRS - 1) / PTRS else 0)
  }

  lemma {:induction false} InWays(ino: nat, n: nat, m: Loc)
    ensures m in Ways(ino, 0, n) <==> exists lb: nat :: lb < n && m in Way(LocOf(ino, lb))
  {
    hide Way, LocOf;
    if n > 0 {
      InWays(ino, n - 1, m);
      WaysLast(ino, 0, n - 1);
    }
  }

  /** What block `lb` needs on its way. */
  lemma WayOf(ino: nat, lb: nat)
    requires lb < DOUBLE_END
    ensures Way(LocOf(ino, lb))
            == if lb < DIRECT then {Slot(ino, lb)}
               else if lb < SINGLE_END then {Slot(ino, 12), Sub(Slot(ino, 12), lb - DIRECT)}
               else var o := lb - SINGLE_END;
                    {Slot(ino, 13), Sub(Slot(ino, 13), o / PTRS), Sub(Sub(Slot(ino, 13), o / PTRS), o % PTRS)}
  {
    if lb >= SINGLE_END {
      var o := lb - SINGLE_END;
      var r, p := Slot(ino, 13), Sub(Slot(ino, 13), o / PTRS);
      assert Way(r) == {r} && Way(p) == {r, p} && Way(Sub(p, o % PTRS)) == {r, p, Sub(p, o % PTRS)};
    }
  }

  /** What block `n` needs that no block before it has needed. */
  ghost function Fresh(ino: nat, n: nat): set<Loc>
    requires n < DOUBLE_END
  {
    if n < DIRECT then {Slot(ino, n)}
    else if n < SINGLE_END then
      var r := Slot(ino, 12);
      var l := Sub(r, n - DIRECT);
      if n == DIRECT then {r, l} else {l}
    else
      var o := n - SINGLE_END;
      var r := Slot(ino, 13);
      var p := Sub(r, o / PTRS);
      var l := Sub(p, o % PTRS);
      if o == 0 then {r, p, l} else if o % PTRS == 0 then {p, l} else {l}
  }

  lemma FreshIs(ino: nat, n: nat)
    requires n < DOUBLE_END
    ensures Way(LocOf(ino, n)) - Ways(ino, 0, n) == Fresh(ino, n)
  {
    hide Way;
    WayOf(ino, n);
    forall m | m in Way(LocOf(ino, n))
      ensures m in Ways(ino, 0, n) <==> m !in Fresh(ino, n)
    {
      InWays(ino, n, m);
      if m in Fresh(ino, n) {
        forall lb: nat | lb < n
          ensures m !in Way(LocOf(ino, lb))
        {
          WayOf(ino, lb);
          EarlierApart(lb, n);
        }
      } else {
        assert n > 0 && m in Way(LocOf(ino, n - 1)) by {
          WayOf(ino, n - 1);
          PreviousNear(n);
        }
      }
    }
  }

  lemma EarlierApart(lb: nat, n: nat)
    requires lb < n
    ensures SINGLE_END <= lb && n < DOUBLE_END ==>
              var o, p := lb - SINGLE_END, n - SINGLE_END;
              (o / PTRS == p / PTRS ==> o % PTRS < p % PTRS) && o / PTRS <= p / PTRS
  {
  }

  lemma PreviousNear(n: nat)
    ensures n > SINGLE_END && (n - SINGLE_END) % PTRS != 0 ==> (n - 1 - SINGLE_END) / PTRS == (n - SINGLE_END) / PTRS
  {
  }

  lemma NeededStep(n: nat)
    requires n < DOUBLE_END
    ensures BlocksNeeded(n + 1) - BlocksNeeded(n)
            == 1 + (if n == DIRECT || n == SINGLE_END then 1 else 0)
                 + (if n >= SINGLE_END && (n - SINGLE_END) % PTRS == 0 then 1 else 0)
  {
    if n >= SINGLE_END {
      var o := n - SINGLE_END;
      var q, k := o / PTRS, o % PTRS;
      assert o == PTRS * q + k;
      assert (o + PTRS) / PTRS == q + 1;
      assert (o + PTRS - 1) / PTRS == if k == 0 then q else q + 1;
    }
  }

  lemma Cardinals(a: Loc, b: Loc, c: Loc)
    requires a != b && a != c && b != c
    ensures |{a}| == 1 && |{a, b}| == 2 && |{a, b, c}| == 3
  {
    assert {a, b} - {a} == {b};
    assert {a, b, c} - {a} == {b, c} && {b, c} - {b} == {c};
  }

  lemma FreshCount(ino: nat, n: nat)
    requires n < DOUBLE_END
    ensures |Fresh(ino, n)| == BlocksNeeded(n + 1) - BlocksNeeded(n)
  {
    hide BlocksNeeded;
    NeededStep(n);
    if n < SINGLE_END {
      Cardinals(Slot(ino, 12), Sub(Slot(ino, 12), if n < DIRECT then 0 else n - DIRECT), Slot(ino, 13));
    } else {
      var o := n - SINGLE_END;
      var p := Sub(Slot(ino, 13), o / PTRS);
      Cardinals(p, Sub(p, o % PTRS), Slot(ino, 13));
      assert Fresh(ino, n) == if o == 0 then {p, Sub(p, o % PTRS), Slot(ino, 13)}
                              else if o % PTRS == 0 then {p, Sub(p, o % PTRS)} else {Sub(p, o % PTRS)};
    }
  }

  /** The pointer tree of a file of `n` blocks without holes. */
  lemma {:induction false} WaysCount(ino: nat, n: nat)
    requires n <= DOUBLE_END
    ensures |Ways(ino, 0, n)| == BlocksNeeded(n)
  {
    hide Way, LocOf, Fresh;
    if n > 0 {
      WaysCount(ino, n - 1);
      WaysLast(ino, 0, n - 1);
      FreshIs(ino, n - 1);
      FreshCount(ino, n - 1);
      var a, f := Ways(ino, 0, n - 1), Fresh(ino, n - 1);
      assert Ways(ino, 0, n) == a + f && a !! f;
    }
  }

  /** How many of the blocks that a file of `n` blocks needs its map has already. */
  ghost function Have(named: set<Loc>, ino: nat, n: nat): nat {
    |Ways(ino, 0, n) * named|
  }

  /** Growing a file without holes from `m` to `n` blocks takes what a file of `n` blocks needs less what it
      has on the way already, also where an earlier write left it with pointer blocks that it did not get
      to use. */
  lemma DenseNeed(named: set<Loc>, ino: nat, m: nat, n: nat)
    requires m <= n <= DOUBLE_END && UpClosed(named) && forall lb: nat :: lb < m ==> LocOf(ino, lb) in named
    ensures Need(named, ino, m, n) == BlocksNeeded(n) - Have(named, ino, n)
    ensures Ways(ino, 0, n) * named == Ways(ino, 0, m) ==> Need(named, ino, m, n) == BlocksNeeded(n) - BlocksNeeded(m)
  {
    hide Way, LocOf, BlocksNeeded;
    WaysCount(ino, n);
    WaysCount(ino, m);
    WaysSplit(ino, m, n);
    WaysNamed(named, ino, m);
    var all := Ways(ino, 0, n);
    assert Ways(ino, m, n) - named == all - named;
    assert all == (all - named) + (all * named);
  }

  lemma {:induction false} WaysSplit(ino: nat, m: nat, n: nat)
    requires m <= n
    ensures Ways(ino, 0, n) == Ways(ino, 0, m) + Ways(ino, m, n)
    decreases n - m
  {
    hide Way, LocOf;
    if m < n {
      WaysSplit(ino, m + 1, n);
      WaysLast(ino, 0, m);
    }
  }

  lemma {:induction false} WaysNamed(named: set<Loc>, ino: nat, m: nat)
    requires UpClosed(named) && forall lb: nat :: lb < m ==> LocOf(ino, lb) in named
    ensures Ways(ino, 0, m) <= named
  {
    hide Way, LocOf, UpClosed;
    if m > 0 {
      WaysNamed(named, ino, m - 1);
      WaysLast(ino, 0, m - 1);
      NamedWay(named, LocOf(ino, m - 1));
    }
  }
}
