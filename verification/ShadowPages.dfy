/** The pages of a chain of shadow objects that collapses: what moves up, what must be true of a page
    for that, and who sees what halfway (kernel/vm/shadowd.c, kernel/mm/pframe.c). */
module ShadowPages {
  import opened Lists
  import opened ShadowChains
  import opened PageFrames

  /** Some of the entries. */
  ghost predicate Part(rem: map<nat, nat>, all: map<nat, nat>) {
    forall k :: k in rem ==> k in all && rem[k] == all[k]
  }

  /** Halfway: `rem` is still with `o`, the rest of its pages went to `last` where it had none. */
  ghost function Handing(c: Chains, o: nat, last: nat, rem: map<nat, nat>): Chains
    requires o in c && last in c
  {
    c[o := c[o].(pages := rem)][last := c[last].(pages := (c[o].pages - rem.Keys) + c[last].pages)]
  }

  lemma HandingStep(c: Chains, o: nat, last: nat, rem: map<nat, nat>, n: nat)
    requires o in c && last in c && o != last && n in rem && Part(rem, c[o].pages)
    ensures Migrated(Handing(c, o, last, rem), o, last, n) == Handing(c, o, last, rem - {n})
  {
    var h, h' := Handing(c, o, last, rem), Handing(c, o, last, rem - {n});
    var g := Migrated(h, o, last, n);
    assert g[o] == h'[o];
    assert n in h[last].pages <==> n in c[last].pages;
    assert g[last].pages == h'[last].pages;
  }

  lemma HandingTaken(c: Chains, o: nat, last: nat, rem: map<nat, nat>, fr: PFrame)
    requires o in c && last in c && o != last && Part(rem, c[o].pages) && fr.pagenum in rem
    ensures last in Handing(c, o, last, rem)
    ensures fr.pagenum in Handing(c, o, last, rem)[last].pages <==> fr.pagenum in c[last].pages
    ensures GoodFrame(fr, Handing(c, o, last, rem)[last].pages.Keys) <==> GoodFrame(fr, c[last].pages.Keys)
  {
  }

  lemma HandingStart(c: Chains, o: nat, last: nat)
    requires o in c && last in c
    ensures Handing(c, o, last, c[o].pages) == c
  {
    assert (c[o].pages - c[o].pages.Keys) + c[last].pages == c[last].pages;
  }

  lemma HandingAt(c: Chains, o: nat, last: nat, rem: map<nat, nat>)
    requires o in c && last in c && o != last
    ensures var h := Handing(c, o, last, rem);
            h.Keys == c.Keys && h[o].pages == rem
  {
  }

  /** Frames keep their flags and either stay with their object or go from `o` to `last`; only frames
      of `o` go for good. */
  ghost predicate Handed(was: map<nat, PFrame>, now: map<nat, PFrame>, o: nat, last: nat) {
    && (forall f :: f in now ==>
          f in was && (now[f] == was[f] || (was[f].obj == o && now[f] == was[f].(obj := last))))
    && (forall f :: f in was && was[f].obj != o ==> f in now && now[f] == was[f])
  }

  /** All frames of `o` allow to be moved to where the page numbers in `taken` are. */
  ghost predicate AllGood(frames: map<nat, PFrame>, o: nat, taken: set<nat>) {
    forall f :: f in frames && frames[f].obj == o ==> GoodFrame(frames[f], taken)
  }

  // ----- which pages meet -----

  /** The object has one reference beyond those of its pages: the daemon takes it out. */
  ghost predicate Single(objs: map<nat, MObj>, x: nat) {
    x in objs && Spare(objs[x]) == 1
  }

  /** Down from `y` comes `x`, with nothing in between that stays. */
  ghost predicate Near(objs: map<nat, MObj>, c: Chains, rank: map<nat, nat>, y: nat, x: nat)
    requires Ranked(c, rank) && y in c
    decreases rank[y]
  {
    c[y].shadowed.Some? &&
    var z := c[y].shadowed.value;
    z == x || (Single(objs, z) && Near(objs, c, rank, z, x))
  }

  /** An object that `x` is near to has page `n`, so that the page of `x` is given up for it. */
  ghost predicate Doubled(objs: map<nat, MObj>, c: Chains, rank: map<nat, nat>, x: nat, n: nat)
    requires Ranked(c, rank)
  {
    exists y :: y in c && n in c[y].pages && Near(objs, c, rank, y, x)
  }

  /** What the assertions ask of a page of `x`. */
  ghost predicate GoodPage(objs: map<nat, MObj>, c: Chains, rank: map<nat, nat>, x: nat, fr: PFrame)
    requires Ranked(c, rank)
  {
    !fr.busy && (Doubled(objs, c, rank, x, fr.pagenum) ==> fr.pincount == 1 && fr.dirty)
  }

  /** No assertion fails on the shadow object `x`: it stays and has two spare references, or goes
      and all of its pages allow it. */
  ghost predicate Smooth(objs: map<nat, MObj>, frames: map<nat, PFrame>, c: Chains, rank: map<nat, nat>, x: nat)
    requires Ranked(c, rank)
  {
    && x in objs && Spare(objs[x]) <= 2
    && (Single(objs, x) ==> forall f :: f in frames && frames[f].obj == x ==> GoodPage(objs, c, rank, x, frames[f]))
  }

  // ----- a collapse elsewhere changes none of this -----

  lemma {:induction false} NearKept(objs: map<nat, MObj>, c: Chains, rank: map<nat, nat>, last: nat, o: nat, y: nat,
                                    x: nat)
    requires Ranked(c, rank) && CanCollapse(c, last, o) && Single(objs, o) && y in Collapsed(c, last, o) && x != o
    requires Ranked(Collapsed(c, last, o), rank)
    ensures Near(objs, Collapsed(c, last, o), rank, y, x) <==> Near(objs, c, rank, y, x)
    decreases rank[y]
  {
    hide Single;
    var c' := Collapsed(c, last, o);
    if y == last {
      var s := c[o].shadowed.value;
      if s != x { NearKept(objs, c, rank, last, o, s, x); }
    } else if c[y].shadowed.Some? {
      assert y !in Parents(c, o);
      NearKept(objs, c, rank, last, o, c[y].shadowed.value, x);
    }
  }

  lemma DoubledKept(objs: map<nat, MObj>, c: Chains, rank: map<nat, nat>, last: nat, o: nat, x: nat, n: nat)
    requires Ranked(c, rank) && CanCollapse(c, last, o) && Single(objs, o) && x != o && last != o
    requires Ranked(Collapsed(c, last, o), rank)
    ensures Doubled(objs, Collapsed(c, last, o), rank, x, n) <==> Doubled(objs, c, rank, x, n)
  {
    hide Near, Parents;
    var c' := Collapsed(c, last, o);
    if Doubled(objs, c', rank, x, n) {
      var y :| y in c' && n in c'[y].pages && Near(objs, c', rank, y, x);
      NearKept(objs, c, rank, last, o, y, x);
      if y == last && n !in c[last].pages {
        NearBelow(objs, c, rank, last, o, x);
        assert n in c[o].pages && Near(objs, c, rank, o, x);
      } else {
        assert y in c && n in c[y].pages && Near(objs, c, rank, y, x);
      }
    }
    if Doubled(objs, c, rank, x, n) {
      var y :| y in c && n in c[y].pages && Near(objs, c, rank, y, x);
      if y == o {
        NearBelow(objs, c, rank, last, o, x);
        NearKept(objs, c, rank, last, o, last, x);
        assert last in c' && n in c'[last].pages && Near(objs, c', rank, last, x);
      } else {
        NearKept(objs, c, rank, last, o, y, x);
        assert y in c' && n in c'[y].pages && Near(objs, c', rank, y, x);
      }
    }
  }

  lemma NearBelow(objs: map<nat, MObj>, c: Chains, rank: map<nat, nat>, last: nat, o: nat, x: nat)
    requires Ranked(c, rank) && CanCollapse(c, last, o) && Single(objs, o) && x != o
    ensures Near(objs, c, rank, last, x) <==> Near(objs, c, rank, o, x)
  {
  }

  /** Only the object right above `o` is one it is near to, if that one stays or has nothing above it. */
  lemma {:induction false} NearOnly(objs: map<nat, MObj>, c: Chains, rank: map<nat, nat>, last: nat, o: nat, y: nat)
    requires Ranked(c, rank) && CanCollapse(c, last, o) && y in c && (Single(objs, last) ==> Parents(c, last) == {})
    ensures Near(objs, c, rank, y, o) <==> y == last
    decreases rank[y]
  {
    if y == last {
    } else if c[y].shadowed.Some? {
      var z := c[y].shadowed.value;
      assert z == o ==> y in Parents(c, o);
      assert z == last ==> y in Parents(c, last);
      if z != o { NearOnly(objs, c, rank, last, o, z); }
    }
  }

  /** For the object that goes next, its pages meet those of the object above it. */
  lemma SmoothHere(objs: map<nat, MObj>, frames: map<nat, PFrame>, c: Chains, rank: map<nat, nat>, last: nat, o: nat)
    requires Ranked(c, rank) && CanCollapse(c, last, o) && Single(objs, o)
             && (Single(objs, last) ==> Parents(c, last) == {})
    ensures Smooth(objs, frames, c, rank, o) <==> AllGood(frames, o, c[last].pages.Keys)
  {
    hide Near, Parents;
    forall n
      ensures Doubled(objs, c, rank, o, n) <==> n in c[last].pages
    {
      forall y | y in c
        ensures Near(objs, c, rank, y, o) <==> y == last
      {
        NearOnly(objs, c, rank, last, o, y);
      }
    }
    forall f | f in frames && frames[f].obj == o
      ensures GoodPage(objs, c, rank, o, frames[f]) <==> GoodFrame(frames[f], c[last].pages.Keys)
    {
    }
  }

  lemma SmoothKept(objs: map<nat, MObj>, frames: map<nat, PFrame>, frames': map<nat, PFrame>, c: Chains,
                   rank: map<nat, nat>, last: nat, o: nat, x: nat)
    requires Ranked(c, rank) && CanCollapse(c, last, o) && Single(objs, o) && x != o && last != o
    requires Ranked(Collapsed(c, last, o), rank) && Handed(frames, frames', o, last) && (x == last ==> !Single(objs, x))
    ensures Smooth(objs, frames', Collapsed(c, last, o), rank, x) <==> Smooth(objs, frames, c, rank, x)
  {
    hide Doubled, Collapsed, Parents;
    var c' := Collapsed(c, last, o);
    if Single(objs, x) {
      assert forall f :: (f in frames' && frames'[f].obj == x) <==> (f in frames && frames[f].obj == x);
      forall f | f in frames && frames[f].obj == x
        ensures f in frames' && frames'[f] == frames[f]
        ensures GoodPage(objs, c', rank, x, frames'[f]) <==> GoodPage(objs, c, rank, x, frames[f])
      {
        DoubledKept(objs, c, rank, last, o, x, frames[f].pagenum);
      }
    }
  }

  // ----- the same, for other reference counts -----

  lemma {:induction false} NearCounts(objs: map<nat, MObj>, objs': map<nat, MObj>, c: Chains, rank: map<nat, nat>,
                                      y: nat, x: nat)
    requires Ranked(c, rank) && y in c && forall z :: z in c ==> (Single(objs, z) <==> Single(objs', z))
    ensures Near(objs, c, rank, y, x) <==> Near(objs', c, rank, y, x)
    decreases rank[y]
  {
    hide Single;
    if c[y].shadowed.Some? {
      NearCounts(objs, objs', c, rank, c[y].shadowed.value, x);
    }
  }

  /** Smoothness depends on which references are spare, not on the counts themselves. */
  lemma SmoothCounts(objs: map<nat, MObj>, objs': map<nat, MObj>, frames: map<nat, PFrame>, c: Chains,
                     rank: map<nat, nat>, x: nat)
    requires Ranked(c, rank) && x in c
             && forall z :: z in c ==> z in objs && z in objs' && Spare(objs[z]) == Spare(objs'[z])
    ensures Smooth(objs, frames, c, rank, x) <==> Smooth(objs', frames, c, rank, x)
  {
    hide Near;
    forall y | y in c
      ensures Near(objs, c, rank, y, x) <==> Near(objs', c, rank, y, x)
    {
      NearCounts(objs, objs', c, rank, y, x);
    }
    forall n
      ensures Doubled(objs, c, rank, x, n) <==> Doubled(objs', c, rank, x, n)
    {
    }
  }

  // ----- halfway -----

  lemma HandingRanked(c: Chains, rank: map<nat, nat>, last: nat, o: nat, rem: map<nat, nat>)
    requires Ranked(c, rank) && last in c && o in c
    ensures Ranked(Handing(c, o, last, rem), rank) && Handing(c, o, last, rem).Keys == c.Keys
  {
  }

  /** With some of its pages gone up, `o` itself may see another page, but no other object does. */
  lemma {:induction false} HandingSight(c: Chains, rank: map<nat, nat>, last: nat, o: nat, rem: map<nat, nat>, x: nat,
                                        n: nat)
    requires Ranked(c, rank) && CanCollapse(c, last, o) && last != o && Part(rem, c[o].pages) && x in c && x != o
    requires Ranked(Handing(c, o, last, rem), rank) && Handing(c, o, last, rem).Keys == c.Keys
    ensures Lookup(Handing(c, o, last, rem), rank, x, n) == Lookup(c, rank, x, n)
    decreases rank[x]
  {
    var h := Handing(c, o, last, rem);
    if x == last {
      var s := c[o].shadowed.value;
      assert Lookup(c, rank, last, n) == if n in c[last].pages then Some(c[last].pages[n]) else Lookup(c, rank, o, n);
      assert Lookup(h, rank, last, n) == if n in h[last].pages then Some(h[last].pages[n]) else Lookup(h, rank, o, n);
      HandingSight(c, rank, last, o, rem, s, n);
    } else if n !in c[x].pages && c[x].shadowed.Some? {
      assert x !in Parents(c, o);
      HandingSight(c, rank, last, o, rem, c[x].shadowed.value, n);
    }
  }

  /** Everyone left sees the same pages. */
  ghost predicate SameSight(c: Chains, c': Chains, rank: map<nat, nat>)
    requires Ranked(c, rank) && Ranked(c', rank)
  {
    && (forall x :: x in c' ==> x in c)
    && (forall x, n :: x in c' ==> Lookup(c', rank, x, n) == Lookup(c, rank, x, n))
  }

  /** The same for all but objects that nobody refers to but the one above. */
  ghost predicate MostSight(objs: map<nat, MObj>, ext: multiset<nat>, c: Chains, c': Chains, rank: map<nat, nat>)
    requires Ranked(c, rank) && Ranked(c', rank)
  {
    && (forall x :: x in c' ==> x in c)
    && (forall x, n :: x in c' && (x in ext || !Single(objs, x)) ==> Lookup(c', rank, x, n) == Lookup(c, rank, x, n))
  }

  lemma SightThen(c0: Chains, c: Chains, c': Chains, rank: map<nat, nat>)
    requires Ranked(c0, rank) && Ranked(c, rank) && Ranked(c', rank) && SameSight(c0, c, rank) && SameSight(c, c', rank)
    ensures SameSight(c0, c', rank)
  {
    hide Lookup, Ranked;
    forall x, n | x in c'
      ensures Lookup(c', rank, x, n) == Lookup(c0, rank, x, n)
    {
      assert Lookup(c', rank, x, n) == Lookup(c, rank, x, n);
    }
  }

  lemma SightMost(objs: map<nat, MObj>, ext: multiset<nat>, c: Chains, c': Chains, rank: map<nat, nat>)
    requires Ranked(c, rank) && Ranked(c', rank) && SameSight(c, c', rank)
    ensures MostSight(objs, ext, c, c', rank)
  {
    hide Lookup, Ranked;
  }

  lemma MostThen(was: map<nat, MObj>, now: map<nat, MObj>, ext: multiset<nat>, c0: Chains, c: Chains, c': Chains,
                 rank: map<nat, nat>)
    requires Ranked(c0, rank) && Ranked(c, rank) && Ranked(c', rank) && SameSight(c0, c, rank)
             && MostSight(now, ext, c, c', rank)
    requires forall x :: x in c && Single(now, x) ==> Single(was, x)
    ensures MostSight(was, ext, c0, c', rank)
  {
    hide Lookup, Ranked, Single;
    forall x, n | x in c' && (x in ext || !Single(was, x))
      ensures Lookup(c', rank, x, n) == Lookup(c0, rank, x, n)
    {
      assert Lookup(c', rank, x, n) == Lookup(c, rank, x, n);
    }
  }

  lemma HandingMost(objs: map<nat, MObj>, ext: multiset<nat>, c: Chains, rank: map<nat, nat>, last: nat, o: nat,
                    rem: map<nat, nat>)
    requires Ranked(c, rank) && CanCollapse(c, last, o) && last != o && Part(rem, c[o].pages) && Single(objs, o)
             && o !in ext
    ensures Ranked(Handing(c, o, last, rem), rank) && MostSight(objs, ext, c, Handing(c, o, last, rem), rank)
  {
    hide Lookup, Ranked, Handing, Parents, Part;
    HandingRanked(c, rank, last, o, rem);
    forall x, n | x in c && x != o
      ensures Lookup(Handing(c, o, last, rem), rank, x, n) == Lookup(c, rank, x, n)
    {
      HandingSight(c, rank, last, o, rem, x, n);
    }
  }

  // ----- from one state to a later one -----

  /** Objects under others are as smooth as they were. */
  ghost predicate Alike(was: map<nat, MObj>, f0: map<nat, PFrame>, c0: Chains, now: map<nat, MObj>, f: map<nat, PFrame>,
                        c: Chains, rank: map<nat, nat>)
  {
    && Ranked(c0, rank) && Ranked(c, rank)
    && forall x :: x in c && Parents(c, x) != {} ==>
         x in c0 && Parents(c0, x) != {} && (Smooth(was, f0, c0, rank, x) <==> Smooth(now, f, c, rank, x))
  }

  /** And those that went were smooth. */
  ghost predicate PagesDone(was: map<nat, MObj>, f0: map<nat, PFrame>, c0: Chains, now: map<nat, MObj>,
                            f: map<nat, PFrame>, c: Chains, rank: map<nat, nat>)
  {
    && Alike(was, f0, c0, now, f, c, rank)
    && forall x :: x in c0 && x !in c ==> Parents(c0, x) != {} && Smooth(was, f0, c0, rank, x)
  }

  lemma PagesThen(was: map<nat, MObj>, f0: map<nat, PFrame>, c0: Chains, mid: map<nat, MObj>, f1: map<nat, PFrame>,
                  c1: Chains, now: map<nat, MObj>, f: map<nat, PFrame>, c: Chains, rank: map<nat, nat>)
    requires PagesDone(was, f0, c0, mid, f1, c1, rank) && PagesDone(mid, f1, c1, now, f, c, rank)
    ensures PagesDone(was, f0, c0, now, f, c, rank)
  {
    hide Smooth, Parents, Ranked;
  }

  lemma PagesRefl(objs: map<nat, MObj>, f: map<nat, PFrame>, c: Chains, rank: map<nat, nat>)
    requires Ranked(c, rank)
    ensures PagesDone(objs, f, c, objs, f, c, rank)
  {
    hide Smooth, Parents, Ranked;
  }

  /** The walk down one chain, as far as pages go: what it passed was smooth, and the object it stands
      at stays or is a top object. */
  ghost predicate PagesWalked(was: map<nat, MObj>, f0: map<nat, PFrame>, c0: Chains, f: map<nat, PFrame>, c: Chains,
                              rank: map<nat, nat>, last: nat, passed: seq<nat>)
  {
    && Alike(was, f0, c0, was, f, c, rank)
    && (forall x :: x in passed ==> Smooth(was, f0, c0, rank, x))
    && (Single(was, last) ==> Parents(c, last) == {})
  }

  lemma PagesAbsorb(was: map<nat, MObj>, f0: map<nat, PFrame>, c0: Chains, f: map<nat, PFrame>, f': map<nat, PFrame>,
                    c: Chains, rank: map<nat, nat>, last: nat, o: nat, passed: seq<nat>)
    requires PagesWalked(was, f0, c0, f, c, rank, last, passed) && CanCollapse(c, last, o) && last != o
             && Single(was, o)
    requires Handed(f, f', o, last) && AllGood(f, o, c[last].pages.Keys) && Ranked(Collapsed(c, last, o), rank)
    ensures PagesWalked(was, f0, c0, f', Collapsed(c, last, o), rank, last, passed + [o])
  {
    hide Smooth, Parents, Ranked, Collapsed, AllGood, Handed, Single;
    var c' := Collapsed(c, last, o);
    SmoothHere(was, f, c, rank, last, o);
    HasParent(c, last, o);
    KeysWithout(c, last, o);
    forall x | x in c' && Parents(c', x) != {}
      ensures x in c && Parents(c, x) != {} && (Smooth(was, f', c', rank, x) <==> Smooth(was, f, c, rank, x))
    {
      CollapseKeepsParents(c, rank, last, o, x);
      SmoothKept(was, f, f', c, rank, last, o, x);
    }
    CollapseKeepsParents(c, rank, last, o, last);
  }

  lemma HasParent(c: Chains, last: nat, o: nat)
    requires last in c && c[last].shadowed == Some(o)
    ensures last in Parents(c, o)
  {
  }

  lemma KeysWithout(c: Chains, last: nat, o: nat)
    requires CanCollapse(c, last, o) && last != o
    ensures Collapsed(c, last, o).Keys == c.Keys - {o}
  {
  }

  /** A failing assertion on a page of `o` could be foretold from where the walk began. */
  lemma PagesPanic(was: map<nat, MObj>, f0: map<nat, PFrame>, c0: Chains, f: map<nat, PFrame>, c: Chains,
                   rank: map<nat, nat>, last: nat, o: nat, passed: seq<nat>)
    requires PagesWalked(was, f0, c0, f, c, rank, last, passed) && CanCollapse(c, last, o) && Single(was, o)
    requires !AllGood(f, o, c[last].pages.Keys)
    ensures Ranked(c0, rank) && !Smooth(was, f0, c0, rank, o)
  {
    hide Smooth, Parents, Ranked, AllGood, Single;
    SmoothHere(was, f, c, rank, last, o);
    HasParent(c, last, o);
  }

  lemma PagesDown(was: map<nat, MObj>, f0: map<nat, PFrame>, c0: Chains, f: map<nat, PFrame>, c: Chains,
                  rank: map<nat, nat>, last: nat, o: nat, passed: seq<nat>)
    requires PagesWalked(was, f0, c0, f, c, rank, last, passed) && o in was && Spare(was[o]) == 2
    ensures PagesWalked(was, f0, c0, f, c, rank, o, passed + [o])
  {
    hide Parents, Ranked, Alike;
  }
}
