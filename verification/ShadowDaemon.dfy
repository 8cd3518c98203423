/** The chain collapsing pass of the shadow daemon (kernel/vm/shadowd.c): intermediate shadow objects
    with a single parent give their pages to the nearest object above that stays, and go.

    The pass is one uninterrupted run over the virtual memory areas, given as the list of their
    top objects.  The kernel's assertions, that an object which stays has exactly two spare references
    and that a page which moves up or is given up for a newer one allows it, are outcomes of the run,
    not assumptions. */
module ShadowDaemon {
  import opened Lists
  import opened ShadowChains
  import opened PageFrames
  import opened ShadowPages

  /** Every object has a spare reference for each parent and each other holder. */
  ghost predicate Enough(objs: map<nat, MObj>, c: Chains, refs: multiset<nat>) {
    && objs.Keys == c.Keys
    && forall o :: o in objs ==> Spare(objs[o]) >= |Parents(c, o)| + refs[o]
  }

  /** The frames of `o` that it has no more were good. */
  ghost predicate Checked(was: map<nat, PFrame>, now: map<nat, PFrame>, o: nat, taken: set<nat>) {
    forall f :: f in was && was[f].obj == o ==> (f in now && now[f] == was[f]) || GoodFrame(was[f], taken)
  }

  /** Counts and links as before but for `o` and `last`, which keep links and spare references. */
  ghost predicate SparesKept(was: map<nat, MObj>, now: map<nat, MObj>, o: nat, last: nat) {
    && now.Keys == was.Keys
    && forall x :: x in was ==>
         && now[x].shadowed == was[x].shadowed && Spare(now[x]) == Spare(was[x])
         && (x != o && x != last ==> now[x] == was[x])
  }

  /** The inner loop: all pages of `o` go up to `last`, unless an assertion fails on one of them;
      `rem` are the pages that are still with `o` then. */
  method MigrateAll(m: Memory, o: nat, last: nat) returns (ok: bool, ghost rem: map<nat, nat>)
    requires m.Valid() && o in m.objs && last in m.objs && o != last && Spare(m.objs[o]) >= 1
    modifies m
    ensures m.Valid() && o in old(m.view) && last in old(m.view)
    ensures ok <==> AllGood(old(m.frames), o, old(m.view)[last].pages.Keys)
    ensures Part(rem, old(m.view)[o].pages) && (ok ==> rem == map[])
    ensures m.view == Handing(old(m.view), o, last, rem)
    ensures SparesKept(old(m.objs), m.objs, o, last)
    ensures ok ==> m.objs[o].nrespages == 0 && Handed(old(m.frames), m.frames, o, last)
  {
    hide Memory.Valid, Handing, Handed, Checked, AllGood, GoodFrame, SparesKept, Migrated, MigratedObjects;
    m.Facts();
    SparesStart(m.objs, o, last);
    HandedStart(m.frames, o, last);
    ghost var c := m.view;
    ghost var taken := c[last].pages.Keys;
    CheckedStart(m.frames, o, taken);
    rem := c[o].pages;
    HandingStart(c, o, last);
    while m.objs[o].respages != []
      invariant m.Valid() && SparesKept(old(m.objs), m.objs, o, last) && m.objs.Keys == old(m.objs.Keys)
      invariant Part(rem, c[o].pages) && m.view == Handing(c, o, last, rem)
      invariant Handed(old(m.frames), m.frames, o, last) && Checked(old(m.frames), m.frames, o, taken)
      decreases m.objs[o].nrespages
    {
      m.Facts();
      m.Resident(o);
      HandingAt(c, o, last, rem);
      var pf := m.objs[o].respages[0];
      ghost var n := m.frames[pf].pagenum;
      assert ShownAt(m.view, pf, o, n);
      var written: bool := *;
      HandingStep(c, o, last, rem, n);
      SparesAt(old(m.objs), m.objs, o, last);
      HandedAt(old(m.frames), m.frames, o, last, pf);
      HandingTaken(c, o, last, rem, m.frames[pf]);
      SparesStep(old(m.objs), m.objs, o, last, pf, n in m.view[last].pages);
      HandedStep(old(m.frames), m.frames, o, last, pf);
      CheckedStep(old(m.frames), m.frames, o, last, taken, pf);
      ok := m.Migrate(pf, last, written);
      if !ok {
        NotAllGood(old(m.frames), o, taken, pf);
        return;
      }
      rem := rem - {n};
    }
    m.Facts();
    m.Resident(o);
    HandingAt(c, o, last, rem);
    assert rem == map[];
    m.NoneLeft(o);
    CheckedEnd(old(m.frames), m.frames, o, taken);
    ok := true;
  }

  lemma CheckedStart(frames: map<nat, PFrame>, o: nat, taken: set<nat>)
    ensures Checked(frames, frames, o, taken)
  {
  }

  lemma CheckedStep(was: map<nat, PFrame>, now: map<nat, PFrame>, o: nat, last: nat, taken: set<nat>, pf: nat)
    requires Checked(was, now, o, taken) && pf in now && pf in was && now[pf] == was[pf]
    ensures GoodFrame(now[pf], taken) ==>
              Checked(was, now - {pf}, o, taken) && Checked(was, now[pf := now[pf].(obj := last)], o, taken)
  {
    hide GoodFrame;
  }

  lemma CheckedEnd(was: map<nat, PFrame>, now: map<nat, PFrame>, o: nat, taken: set<nat>)
    requires Checked(was, now, o, taken) && forall f :: f in now ==> now[f].obj != o
    ensures AllGood(was, o, taken)
  {
    hide GoodFrame;
  }

  lemma NotAllGood(was: map<nat, PFrame>, o: nat, taken: set<nat>, pf: nat)
    requires pf in was && was[pf].obj == o && !GoodFrame(was[pf], taken)
    ensures !AllGood(was, o, taken)
  {
    hide GoodFrame;
  }

  lemma SparesStart(objs: map<nat, MObj>, o: nat, last: nat)
    ensures SparesKept(objs, objs, o, last)
  {
  }

  lemma SparesAt(was: map<nat, MObj>, now: map<nat, MObj>, o: nat, last: nat)
    requires SparesKept(was, now, o, last)
    ensures was.Keys == now.Keys && forall x :: x in was ==> Spare(now[x]) == Spare(was[x])
  {
  }

  lemma SparesStep(was: map<nat, MObj>, now: map<nat, MObj>, o: nat, last: nat, pf: nat, taken: bool)
    requires SparesKept(was, now, o, last) && o in now && last in now && o != last
    ensures var objs' := MigratedObjects(now, o, last, pf, taken);
            SparesKept(was, objs', o, last) && o in objs' && objs'[o].nrespages == now[o].nrespages - 1
  {
  }

  lemma HandedStart(frames: map<nat, PFrame>, o: nat, last: nat)
    ensures Handed(frames, frames, o, last)
  {
  }

  lemma HandedAt(was: map<nat, PFrame>, now: map<nat, PFrame>, o: nat, last: nat, pf: nat)
    requires Handed(was, now, o, last) && pf in now && now[pf].obj == o && o != last
    ensures pf in was && now[pf] == was[pf]
  {
  }

  lemma HandedStep(was: map<nat, PFrame>, now: map<nat, PFrame>, o: nat, last: nat, pf: nat)
    requires Handed(was, now, o, last) && pf in now && now[pf].obj == o && o != last
    ensures Handed(was, now - {pf}, o, last) && Handed(was, now[pf := now[pf].(obj := last)], o, last)
  {
  }

  // ----- one object goes -----

  /** The survivors keep their spare references. */
  ghost predicate SparesSame(was: map<nat, MObj>, now: map<nat, MObj>) {
    forall x :: x in now ==> x in was && Spare(now[x]) == Spare(was[x])
  }

  /** `o`, whose only parent is `last`, gives it its pages and its place in the chain, unless an
      assertion fails on one of the pages. */
  method Absorb(m: Memory, last: nat, o: nat) returns (ok: bool, ghost rem: map<nat, nat>)
    requires m.Valid() && CanCollapse(m.view, last, o) && last != o && last in m.objs && o in m.objs
    requires Spare(m.objs[o]) == 1
    requires var s := m.view[o].shadowed.value; s != o && s != last && s in m.objs && Spare(m.objs[s]) >= 1
    modifies m
    ensures m.Valid() && last in old(m.view) && o in old(m.view)
    ensures ok <==> AllGood(old(m.frames), o, old(m.view)[last].pages.Keys)
    ensures !ok ==> Part(rem, old(m.view)[o].pages) && m.view == Handing(old(m.view), o, last, rem)
    ensures ok ==> m.view == Collapsed(old(m.view), last, o)
    ensures ok ==> m.objs.Keys == old(m.objs.Keys) - {o} && SparesSame(old(m.objs), m.objs)
    ensures ok ==> Handed(old(m.frames), m.frames, o, last)
  {
    hide Memory.Valid, Handed, Handing, SparesKept, SparesSame, Collapsed, Parents, AllGood, Part;
    m.Facts();
    ghost var c, objs := m.view, m.objs;
    var s := m.objs[o].shadowed.value;
    ok, rem := MigrateAll(m, o, last);
    if !ok {
      return;
    }
    m.Facts();
    ghost var mid := m.objs;
    AbsorbSpares(objs, mid, last, o);
    CollapsedFromHanding(c, last, o);
    m.Relink(last, m.objs[o].shadowed);
    m.Ref(s);
    m.PutLast(o);
  }

  /** The objects once `o` has gone. */
  ghost function Relieved(objs: map<nat, MObj>, last: nat, o: nat, s: nat): map<nat, MObj>
    requires last in objs && o in objs && s in objs && s != o
  {
    var a := objs[last := objs[last].(shadowed := objs[o].shadowed)];
    var b := a[s := a[s].(refcount := a[s].refcount + 1)];
    (b - {o})[s := b[s].(refcount := b[s].refcount - 1)]
  }

  lemma AbsorbSpares(was: map<nat, MObj>, mid: map<nat, MObj>, last: nat, o: nat)
    requires SparesKept(was, mid, o, last) && last in was && o in was && last != o && was[o].shadowed.Some?
    requires var s := was[o].shadowed.value; s in was && s != o && s != last
    ensures mid.Keys == was.Keys
    ensures var s := was[o].shadowed.value;
            && mid[o].shadowed == was[o].shadowed && Spare(mid[s]) == Spare(was[s]) && Spare(mid[o]) == Spare(was[o])
            && SparesSame(was, Relieved(mid, last, o, s)) && Relieved(mid, last, o, s).Keys == was.Keys - {o}
  {
  }

  lemma CollapsedFromHanding(c: Chains, last: nat, o: nat)
    requires CanCollapse(c, last, o) && last != o
    ensures var h := Handing(c, o, last, map[]);
            last in h &&
            h[last := h[last].(shadowed := c[o].shadowed)] - {o} == Collapsed(c, last, o)
  {
    var h := Handing(c, o, last, map[]);
    var none: map<nat, nat> := map[];
    assert c[o].pages - none.Keys == c[o].pages;
  }

  // ----- a whole chain -----

  /** The shadow objects from `o` down to, but without, the bottom object. */
  ghost function Shadows(c: Chains, rank: map<nat, nat>, o: Option<nat>): seq<nat>
    requires Ranked(c, rank) && (o.Some? ==> o.value in c)
    decreases if o.Some? then rank[o.value] + 1 else 0
  {
    if o.None? || c[o.value].shadowed.None? then [] else [o.value] + Shadows(c, rank, c[o.value].shadowed)
  }

  /** Those with more than one spare reference. */
  ghost function Shared(objs: map<nat, MObj>, xs: seq<nat>): seq<nat> {
    if xs == [] then []
    else (if xs[0] in objs && Spare(objs[xs[0]]) == 1 then [] else [xs[0]]) + Shared(objs, xs[1..])
  }

  lemma {:induction false} SharedSnoc(objs: map<nat, MObj>, xs: seq<nat>, x: nat)
    ensures Shared(objs, xs + [x]) == Shared(objs, xs) + if x in objs && Spare(objs[x]) == 1 then [] else [x]
  {
    if xs != [] {
      SharedSnoc(objs, xs[1..], x);
      assert (xs + [x])[1..] == xs[1..] + [x];
    }
  }

  lemma {:induction false} SharedAmong(objs: map<nat, MObj>, xs: seq<nat>)
    ensures forall x :: x in Shared(objs, xs) ==> x in xs
  {
    if xs != [] { SharedAmong(objs, xs[1..]); }
  }

  lemma {:induction false} ShadowsBelow(c: Chains, rank: map<nat, nat>, o: nat)
    requires Ranked(c, rank) && o in c
    ensures forall x :: x in Shadows(c, rank, Some(o)) ==>
              x in c && x in rank && rank[x] <= rank[o] && c[x].shadowed.Some?
    decreases rank[o]
  {
    if c[o].shadowed.Some? {
      ShadowsBelow(c, rank, c[o].shadowed.value);
    }
  }

  lemma {:induction false} WithoutAbsent(a: seq<nat>, b: seq<nat>, x: nat)
    requires x !in a
    ensures Without(a + [x] + b, x) == a + b
  {
    if a == [] {
      assert a + [x] + b == [x] + b;
    } else {
      WithoutAbsent(a[1..], b, x);
      assert (a + [x] + b)[1..] == a[1..] + [x] + b;
      assert a + b == [a[0]] + (a[1..] + b);
    }
  }

  lemma {:induction false} WithoutNone(a: seq<nat>, x: nat)
    requires x !in a
    ensures Without(a, x) == a
  {
    if a != [] {
      WithoutNone(a[1..], x);
      assert a == [a[0]] + a[1..];
    }
  }

  /** A collapse takes exactly one object out of every chain that ran through it. */
  lemma {:induction false} CollapseShortens(c: Chains, rank: map<nat, nat>, last: nat, o: nat, x: nat)
    requires Ranked(c, rank) && CanCollapse(c, last, o) && x in Collapsed(c, last, o)
    requires Ranked(Collapsed(c, last, o), rank)
    ensures Shadows(Collapsed(c, last, o), rank, Some(x)) == Without(Shadows(c, rank, Some(x)), o)
    decreases rank[x]
  {
    var c' := Collapsed(c, last, o);
    if x == last {
      var s := c[o].shadowed.value;
      CollapseShortens(c, rank, last, o, s);
      ShadowsBelow(c, rank, s);
      WithoutNone(Shadows(c, rank, Some(s)), o);
      calc {
        Shadows(c, rank, Some(last));
        [last] + Shadows(c, rank, Some(o));
        [last] + ([o] + Shadows(c, rank, Some(s)));
        [last] + [o] + Shadows(c, rank, Some(s));
      }
      WithoutAbsent([last], Shadows(c, rank, Some(s)), o);
    } else if c[x].shadowed.Some? {
      assert x !in Parents(c, o);
      CollapseShortens(c, rank, last, o, c[x].shadowed.value);
    }
  }

  /** Every chain runs through the same objects, those that went aside. */
  ghost predicate SameChains(c: Chains, c': Chains, rank: map<nat, nat>)
    requires Ranked(c, rank) && Ranked(c', rank) && forall x :: x in c' ==> x in c
  {
    forall r, x :: r in c' ==> (x in Shadows(c', rank, Some(r)) <==> x in Shadows(c, rank, Some(r)) && x in c')
  }

  lemma {:induction false} ShadowsNoDup(c: Chains, rank: map<nat, nat>, o: nat)
    requires Ranked(c, rank) && o in c
    ensures NoDup(Shadows(c, rank, Some(o)))
    decreases rank[o]
  {
    if c[o].shadowed.Some? {
      ShadowsNoDup(c, rank, c[o].shadowed.value);
      ShadowsBelow(c, rank, c[o].shadowed.value);
      NoDupCons(Shadows(c, rank, c[o].shadowed), o);
    }
  }

  lemma ChainsAfter(c0: Chains, c: Chains, rank: map<nat, nat>, last: nat, o: nat)
    requires Ranked(c0, rank) && Ranked(c, rank) && CanCollapse(c, last, o) && last != o
    requires (forall x :: x in c ==> x in c0) && SameChains(c0, c, rank)
    requires Ranked(Collapsed(c, last, o), rank) && Collapsed(c, last, o).Keys == c.Keys - {o}
    ensures SameChains(c0, Collapsed(c, last, o), rank)
  {
    hide Collapsed, Parents, Ranked;
    var c' := Collapsed(c, last, o);
    forall r, x | r in c'
      ensures x in Shadows(c', rank, Some(r)) <==> x in Shadows(c, rank, Some(r)) && x != o
    {
      MembersAfter(c, rank, last, o, r, x);
    }
    ShadowsIn(c, rank);
    OneLess(c0, c, c', rank, o);
  }

  lemma ShadowsIn(c: Chains, rank: map<nat, nat>)
    requires Ranked(c, rank)
    ensures forall r, x :: r in c && x in Shadows(c, rank, Some(r)) ==> x in c
  {
    forall r, x | r in c && x in Shadows(c, rank, Some(r))
      ensures x in c
    {
      ShadowsBelow(c, rank, r);
    }
  }

  lemma OneLess(c0: Chains, c: Chains, c': Chains, rank: map<nat, nat>, o: nat)
    requires Ranked(c0, rank) && Ranked(c, rank) && Ranked(c', rank) && c'.Keys == c.Keys - {o}
    requires (forall x :: x in c ==> x in c0) && SameChains(c0, c, rank)
    requires forall r, x :: r in c' ==> (x in Shadows(c', rank, Some(r)) <==> x in Shadows(c, rank, Some(r)) && x != o)
    ensures SameChains(c0, c', rank)
  {
    hide Ranked;
    forall r, x | r in c'
      ensures x in Shadows(c', rank, Some(r)) <==> x in Shadows(c0, rank, Some(r)) && x in c'
    {
      assert x in Shadows(c, rank, Some(r)) <==> x in Shadows(c0, rank, Some(r)) && x in c;
    }
  }

  lemma MembersAfter(c: Chains, rank: map<nat, nat>, last: nat, o: nat, r: nat, x: nat)
    requires Ranked(c, rank) && CanCollapse(c, last, o) && r in c && r in Collapsed(c, last, o)
    requires Ranked(Collapsed(c, last, o), rank)
    ensures x in Shadows(Collapsed(c, last, o), rank, Some(r)) <==> x in Shadows(c, rank, Some(r)) && x != o
  {
    hide Collapsed, Parents, Ranked, Without;
    var s := Shadows(c, rank, Some(r));
    CollapseShortens(c, rank, last, o, r);
    ShadowsNoDup(c, rank, r);
    if o in s { WithoutMembers(s, o); } else { WithoutNone(s, o); }
  }

  /** The spare references are those of the start, plus the one the daemon has on `last`. */
  ghost predicate SparesHeld(was: map<nat, MObj>, now: map<nat, MObj>, last: nat) {
    forall x :: x in now ==> x in was && Spare(now[x]) == Spare(was[x]) + (if x == last then 1 else 0)
  }

  /** The walk down one chain: where it started, where it is (`o` under `last`), and what it passed. */
  ghost predicate Walk(was: map<nat, MObj>, c0: Chains, now: map<nat, MObj>, c: Chains, rank: map<nat, nat>,
                       ext: multiset<nat>, root: nat, last: nat, o: Option<nat>, passed: seq<nat>)
  {
    && Ranked(c0, rank) && Ranked(c, rank) && root in c0 && root in c && last in c && o == c[last].shadowed
    && was.Keys == c0.Keys
    && SameSight(c0, c, rank) && SameChains(c0, c, rank)
    && Enough(now, c, ext + multiset{last}) && |Parents(c, last)| + ext[last] >= 1
    && SparesHeld(was, now, last)
    && Shadows(c0, rank, c0[root].shadowed) == passed + Shadows(c, rank, o)
    && Shadows(c, rank, c[root].shadowed) == Shared(was, passed) + Shadows(c, rank, o)
    && (forall x :: x in passed ==>
          && x in was && 1 <= Spare(was[x]) <= 2
          && x in rank && (o.Some? ==> rank[x] > rank[o.value]))
    && (forall x :: x in c <==> x in c0 && !(x in passed && Spare(was[x]) == 1))
  }

  function Referenced(objs: map<nat, MObj>, o: nat, d: int): map<nat, MObj>
    requires o in objs
  {
    objs[o := objs[o].(refcount := objs[o].refcount + d)]
  }

  lemma WalkStart(objs: map<nat, MObj>, c: Chains, rank: map<nat, nat>, ext: multiset<nat>, root: nat)
    requires Ranked(c, rank) && Enough(objs, c, ext) && root in c && ext[root] >= 1
    ensures Walk(objs, c, Referenced(objs, root, 1), c, rank, ext, root, root, c[root].shadowed, [])
  {
    hide Lookup, Shadows, Parents;
    forall r, x | r in c
      ensures x in Shadows(c, rank, Some(r)) ==> x in c
    {
      ShadowsBelow(c, rank, r);
    }
  }

  /** An object below `last` with one spare reference has no other parent and is no one's top. */
  lemma WalkCan(was: map<nat, MObj>, c0: Chains, now: map<nat, MObj>, c: Chains, rank: map<nat, nat>,
                ext: multiset<nat>, root: nat, last: nat, o: nat, passed: seq<nat>)
    requires Walk(was, c0, now, c, rank, ext, root, last, Some(o), passed)
    requires o in c && c[o].shadowed.Some?
    ensures o in now && last in now && last != o && Spare(now[o]) >= 1 && o in was && Spare(now[o]) == Spare(was[o])
    ensures var s := c[o].shadowed.value; s != o && s != last && s in now && Spare(now[s]) >= 1
    ensures Spare(now[o]) == 1 ==> CanCollapse(c, last, o) && ext[o] == 0
  {
    hide Lookup, Shadows, SameSight, SameChains, Shared;
    var s := c[o].shadowed.value;
    assert last in Parents(c, o) && o in Parents(c, s);
    Nonempty(Parents(c, o), last);
    Nonempty(Parents(c, s), o);
  }

  lemma Nonempty(xs: set<nat>, x: nat)
    requires x in xs
    ensures |xs| >= 1 && (|xs| == 1 ==> xs == {x})
  {
    if |xs| == 1 && xs != {x} {
      assert {x} < xs;
      Subset({x}, xs);
    }
  }

  lemma Subset(xs: set<nat>, ys: set<nat>)
    requires xs < ys
    ensures |xs| < |ys|
  {
    assert ys == xs + (ys - xs);
  }

  lemma SightAfter(c0: Chains, c: Chains, rank: map<nat, nat>, last: nat, o: nat)
    requires Ranked(c0, rank) && Ranked(c, rank) && CanCollapse(c, last, o) && SameSight(c0, c, rank)
    ensures Ranked(Collapsed(c, last, o), rank) && SameSight(c0, Collapsed(c, last, o), rank)
  {
    hide Lookup, Collapsed, Parents, Ranked;
    CollapsedRanked(c, rank, last, o);
    var c' := Collapsed(c, last, o);
    CollapsedKeys(c, last, o);
    forall x, n | x in c'
      ensures Lookup(c', rank, x, n) == Lookup(c0, rank, x, n)
    {
      CollapseKeepsLookup(c, rank, last, o, x, n);
    }
  }

  lemma CollapsedKeys(c: Chains, last: nat, o: nat)
    requires CanCollapse(c, last, o) && last != o
    ensures Collapsed(c, last, o).Keys == c.Keys - {o}
    ensures Collapsed(c, last, o)[last].shadowed == c[o].shadowed
    ensures forall x :: x in c && x != o && x != last ==> Collapsed(c, last, o)[x] == c[x]
  {
  }

  lemma EnoughAfter(now: map<nat, MObj>, now': map<nat, MObj>, c: Chains, rank: map<nat, nat>, refs: multiset<nat>,
                    last: nat, o: nat)
    requires Ranked(c, rank) && CanCollapse(c, last, o) && Enough(now, c, refs) && last != o
    requires now'.Keys == now.Keys - {o} && SparesSame(now, now')
    ensures Enough(now', Collapsed(c, last, o), refs)
    ensures |Parents(Collapsed(c, last, o), last)| == |Parents(c, last)|
  {
    hide Collapsed, Ranked, Parents;
    var c' := Collapsed(c, last, o);
    CollapsedKeys(c, last, o);
    forall x | x in c'
      ensures |Parents(c', x)| == |Parents(c, x)|
    {
      CollapseKeepsParents(c, rank, last, o, x);
    }
  }

  /** The chain from the top, and the rest of it, when `o` goes from under `last`. */
  lemma ShadowsAfter(c: Chains, rank: map<nat, nat>, root: nat, last: nat, o: nat, kept: seq<nat>)
    requires Ranked(c, rank) && CanCollapse(c, last, o) && root in c && root != o
    requires Ranked(Collapsed(c, last, o), rank) && root in Collapsed(c, last, o)
             && c[o].shadowed.value in Collapsed(c, last, o)
    requires o !in kept && Shadows(c, rank, c[root].shadowed) == kept + Shadows(c, rank, Some(o))
    ensures Shadows(c, rank, Some(o)) == [o] + Shadows(c, rank, c[o].shadowed)
    ensures var c' := Collapsed(c, last, o);
            && Shadows(c', rank, c[o].shadowed) == Shadows(c, rank, c[o].shadowed)
            && Shadows(c', rank, c'[root].shadowed) == kept + Shadows(c', rank, c[o].shadowed)
  {
    var c', s := Collapsed(c, last, o), c[o].shadowed.value;
    var rest := Shadows(c, rank, Some(s));
    CollapseShortens(c, rank, last, o, s);
    ShadowsBelow(c, rank, s);
    WithoutNone(rest, o);
    assert kept + Shadows(c, rank, Some(o)) == kept + [o] + rest;
    WithoutAbsent(kept, rest, o);
    if root == last {
      assert Without([o] + rest, o) == rest;
    } else {
      assert c[root].shadowed.Some? && root !in Parents(c, o);
      CollapseShortens(c, rank, last, o, c[root].shadowed.value);
    }
  }

  lemma SparesHeldSame(was: map<nat, MObj>, now: map<nat, MObj>, now': map<nat, MObj>, last: nat)
    requires SparesHeld(was, now, last) && SparesSame(now, now')
    ensures SparesHeld(was, now', last)
  {
  }

  lemma WalkAbsorb(was: map<nat, MObj>, c0: Chains, now: map<nat, MObj>, now': map<nat, MObj>, c: Chains,
                   rank: map<nat, nat>, ext: multiset<nat>, root: nat, last: nat, o: nat, passed: seq<nat>)
    requires Walk(was, c0, now, c, rank, ext, root, last, Some(o), passed)
    requires CanCollapse(c, last, o) && last != o && ext[o] == 0 && o in now && o in was && Spare(was[o]) == 1
    requires ext[root] >= 1 && c[o].shadowed.value != o
    requires now'.Keys == now.Keys - {o} && SparesSame(now, now')
    ensures Walk(was, c0, now', Collapsed(c, last, o), rank, ext, root, last, c[o].shadowed, passed + [o])
  {
    hide Lookup, Collapsed, Parents, Shadows, Shared, SameSight, SameChains, Enough, SparesHeld, SparesSame;
    SparesHeldSame(was, now, now', last);
    assert forall x :: x in c ==> x in c0;
    SightAfter(c0, c, rank, last, o);
    EnoughAfter(now, now', c, rank, ext + multiset{last}, last, o);
    CollapsedKeys(c, last, o);
    ChainsAfter(c0, c, rank, last, o);
    SharedSnoc(was, passed, o);
    SharedAmong(was, passed);
    ShadowsAfter(c, rank, root, last, o, Shared(was, passed));
    assert passed + ([o] + Shadows(c, rank, c[o].shadowed)) == passed + [o] + Shadows(c, rank, c[o].shadowed);
    assert Shared(was, passed + [o]) == Shared(was, passed);
  }

  lemma WalkDown(was: map<nat, MObj>, c0: Chains, now: map<nat, MObj>, c: Chains,
                 rank: map<nat, nat>, ext: multiset<nat>, root: nat, last: nat, o: nat, passed: seq<nat>)
    requires Walk(was, c0, now, c, rank, ext, root, last, Some(o), passed)
    requires o in c && c[o].shadowed.Some? && last != o && last in now && o in now && o in was && Spare(was[o]) == 2
    ensures Spare(now[last]) >= 2
    ensures var now' := Referenced(Referenced(now, o, 1), last, -1);
            Walk(was, c0, now', c, rank, ext, root, o, c[o].shadowed, passed + [o])
  {
    hide Lookup, SameSight, SameChains, Shared, Shadows, Enough, Parents, SparesHeld, Referenced;
    EnoughDown(now, c, ext, last, o);
    SparesDown(was, now, last, o);
    SharedSnoc(was, passed, o);
    var rest := Shadows(c, rank, c[o].shadowed);
    assert Shadows(c, rank, Some(o)) == [o] + rest by { ShadowsAt(c, rank, o); }
    assert passed + ([o] + rest) == passed + [o] + rest;
    assert Shared(was, passed) + ([o] + rest) == Shared(was, passed) + [o] + rest;
  }

  lemma SparesDown(was: map<nat, MObj>, now: map<nat, MObj>, last: nat, o: nat)
    requires SparesHeld(was, now, last) && last != o && last in now && o in now
    ensures SparesHeld(was, Referenced(Referenced(now, o, 1), last, -1), o)
  {
  }

  lemma ShadowsAt(c: Chains, rank: map<nat, nat>, o: nat)
    requires Ranked(c, rank) && o in c
    ensures Shadows(c, rank, Some(o)) == if c[o].shadowed.None? then [] else [o] + Shadows(c, rank, c[o].shadowed)
  {
  }

  lemma EnoughDown(now: map<nat, MObj>, c: Chains, ext: multiset<nat>, last: nat, o: nat)
    requires Enough(now, c, ext + multiset{last}) && |Parents(c, last)| + ext[last] >= 1
    requires o in c && last in c && last != o && c[last].shadowed == Some(o)
    ensures Spare(now[last]) >= 2
    ensures Enough(Referenced(Referenced(now, o, 1), last, -1), c, ext + multiset{o})
    ensures |Parents(c, o)| + ext[o] >= 1
  {
    hide Parents;
    assert last in Parents(c, o) by { ParentsAt(c, last, o); }
    Nonempty(Parents(c, o), last);
  }

  lemma ParentsAt(c: Chains, last: nat, o: nat)
    requires last in c && c[last].shadowed == Some(o)
    ensures last in Parents(c, o)
  {
  }

  /** What a walk that came to the bottom has done, once the daemon drops its last reference. */
  ghost predicate Collapse(was: map<nat, MObj>, c0: Chains, now: map<nat, MObj>, c: Chains, rank: map<nat, nat>,
                           ext: multiset<nat>, root: nat)
  {
    && Ranked(c0, rank) && Ranked(c, rank) && root in c0 && root in c && was.Keys == c0.Keys
    && SameSight(c0, c, rank) && SameChains(c0, c, rank) && Enough(now, c, ext) && SparesSame(was, now)
    && var shadows := Shadows(c0, rank, c0[root].shadowed);
       && Shadows(c, rank, c[root].shadowed) == Shared(was, shadows)
       && forall x :: x in c <==> x in c0 && !(x in shadows && x in was && Spare(was[x]) == 1)
  }

  lemma WalkEnd(was: map<nat, MObj>, c0: Chains, now: map<nat, MObj>, c: Chains, rank: map<nat, nat>,
                ext: multiset<nat>, root: nat, last: nat, o: Option<nat>, passed: seq<nat>)
    requires Walk(was, c0, now, c, rank, ext, root, last, o, passed)
    requires o.None? || c[o.value].shadowed.None?
    ensures last in now && Spare(now[last]) >= 2
    ensures Collapse(was, c0, Referenced(now, last, -1), c, rank, ext, root)
    ensures passed == Shadows(c0, rank, c0[root].shadowed)
  {
    hide Lookup, SameSight, SameChains, Shared, Parents, Shadows, Enough, SparesHeld, SparesSame;
    EnoughEnd(was, now, c, ext, last);
    if o.Some? { ShadowsAt(c, rank, o.value); }
    var rest := Shadows(c, rank, o);
    assert rest == [] by { if o.None? { NoShadows(c, rank); } }
    assert passed + rest == passed && Shared(was, passed) + rest == Shared(was, passed);
  }

  /** Whether the kernel's assertions hold of every shadow object on the chain below `root`. */
  ghost predicate Fits(objs: map<nat, MObj>, frames: map<nat, PFrame>, c: Chains, rank: map<nat, nat>, root: nat)
    requires Ranked(c, rank) && root in c
  {
    forall x :: x in Shadows(c, rank, c[root].shadowed) ==> Smooth(objs, frames, c, rank, x)
  }

  lemma NoShadows(c: Chains, rank: map<nat, nat>)
    requires Ranked(c, rank)
    ensures Shadows(c, rank, None) == []
  {
  }

  lemma EnoughEnd(was: map<nat, MObj>, now: map<nat, MObj>, c: Chains, ext: multiset<nat>, last: nat)
    requires Enough(now, c, ext + multiset{last}) && |Parents(c, last)| + ext[last] >= 1 && last in c
    requires SparesHeld(was, now, last)
    ensures last in now && Spare(now[last]) >= 2
    ensures Enough(Referenced(now, last, -1), c, ext) && SparesSame(was, Referenced(now, last, -1))
  {
    hide Parents;
  }

  lemma WalkFacts(was: map<nat, MObj>, c0: Chains, now: map<nat, MObj>, c: Chains, rank: map<nat, nat>,
                  ext: multiset<nat>, root: nat, last: nat, o: Option<nat>, passed: seq<nat>)
    requires Walk(was, c0, now, c, rank, ext, root, last, o, passed)
    ensures Ranked(c0, rank) && Ranked(c, rank) && SameSight(c0, c, rank) && root in c0 && now.Keys == c.Keys
    ensures last in now && (o.Some? ==> o.value in now && o.value in rank)
    ensures o.Some? && c[o.value].shadowed.Some? ==>
              c[o.value].shadowed.value in rank && rank[c[o.value].shadowed.value] < rank[o.value]
  {
    hide Lookup, SameSight, SameChains, Shared, Parents, Shadows;
  }

  lemma WalkPanics(was: map<nat, MObj>, f0: map<nat, PFrame>, c0: Chains, now: map<nat, MObj>, c: Chains,
                   rank: map<nat, nat>, ext: multiset<nat>, root: nat, last: nat, o: nat, passed: seq<nat>)
    requires Walk(was, c0, now, c, rank, ext, root, last, Some(o), passed)
    requires o in c && c[o].shadowed.Some? && Ranked(c0, rank) && !Smooth(was, f0, c0, rank, o)
    ensures root in c0 && !Fits(was, f0, c0, rank, root)
  {
    hide Lookup, SameSight, SameChains, Shared, Parents, Smooth;
    assert o in Shadows(c, rank, Some(o));
    assert o in passed + Shadows(c, rank, Some(o));
  }

  lemma TooMany(objs: map<nat, MObj>, frames: map<nat, PFrame>, c: Chains, rank: map<nat, nat>, x: nat)
    requires Ranked(c, rank) && x in objs && Spare(objs[x]) > 2
    ensures !Smooth(objs, frames, c, rank, x)
  {
  }

  /** Where the walk starts: the top object stays or has nothing above it. */
  lemma PagesStart(objs: map<nat, MObj>, frames: map<nat, PFrame>, c: Chains, rank: map<nat, nat>, ext: multiset<nat>,
                   root: nat)
    requires Ranked(c, rank) && Enough(objs, c, ext) && root in c && ext[root] >= 1
    ensures PagesWalked(objs, frames, c, frames, c, rank, root, [])
  {
    hide Parents, Smooth;
    PagesRefl(objs, frames, c, rank);
  }

  /** What the walk has done to the pages. */
  lemma PagesEnd(was: map<nat, MObj>, f0: map<nat, PFrame>, c0: Chains, now: map<nat, MObj>, f: map<nat, PFrame>,
                 c: Chains, rank: map<nat, nat>, ext: multiset<nat>, root: nat, last: nat, passed: seq<nat>)
    requires Collapse(was, c0, now, c, rank, ext, root) && PagesWalked(was, f0, c0, f, c, rank, last, passed)
    requires passed == Shadows(c0, rank, c0[root].shadowed)
    ensures Fits(was, f0, c0, rank, root) && PagesDone(was, f0, c0, now, f, c, rank)
  {
    hide Lookup, SameSight, SameChains, Shared, Parents, Shadows, Smooth;
    forall x | x in c && Parents(c, x) != {}
      ensures Smooth(was, f, c, rank, x) <==> Smooth(now, f, c, rank, x)
    {
      SmoothCounts(was, now, f, c, rank, x);
    }
    forall x | x in c0 && x !in c
      ensures Parents(c0, x) != {} && Smooth(was, f0, c0, rank, x)
    {
      ShadowsHaveParents(c0, rank, root, x);
    }
  }

  /** The walk down one chain.  False is an assertion that fails, which is so exactly when the chain
      does not fit; nobody sees another page even then, but for an object that is just being taken out. */
  method CollapseChain(m: Memory, root: nat, ghost ext: multiset<nat>, ghost rank: map<nat, nat>) returns (ok: bool)
    requires m.Valid() && Ranked(m.view, rank) && Enough(m.objs, m.view, ext)
    requires root in m.objs && ext[root] >= 1
    modifies m
    ensures m.Valid() && Ranked(old(m.view), rank) && Ranked(m.view, rank) && root in old(m.view)
    ensures MostSight(old(m.objs), ext, old(m.view), m.view, rank)
    ensures ok <==> Fits(old(m.objs), old(m.frames), old(m.view), rank, root)
    ensures ok ==> Collapse(old(m.objs), old(m.view), m.objs, m.view, rank, ext, root)
    ensures ok ==> PagesDone(old(m.objs), old(m.frames), old(m.view), m.objs, m.frames, m.view, rank)
  {
    hide Memory.Valid, Walk, Enough, Ranked, SameSight, MostSight, Shadows, Parents, Lookup, Fits, Smooth, AllGood;
    hide Handed, Handing, Part, Collapsed, SparesSame, Collapse, Shared, PagesWalked, PagesDone;
    ghost var was, f0, c0 := m.objs, m.frames, m.view;
    m.Facts();
    var last := root;
    var o := m.objs[last].shadowed;
    ghost var passed: seq<nat> := [];
    WalkStart(was, c0, rank, ext, root);
    PagesStart(was, f0, c0, rank, ext, root);
    m.Ref(last);
    WalkFacts(was, c0, m.objs, m.view, rank, ext, root, last, o, passed);
    while o.Some? && m.objs[o.value].shadowed.Some?
      invariant m.Valid() && Walk(was, c0, m.objs, m.view, rank, ext, root, last, o, passed)
      invariant PagesWalked(was, f0, c0, m.frames, m.view, rank, last, passed)
      invariant last in m.objs && (o.Some? ==> o.value in m.objs && o.value in rank)
      decreases if o.Some? then rank[o.value] + 1 else 0
    {
      m.Facts();
      WalkFacts(was, c0, m.objs, m.view, rank, ext, root, last, o, passed);
      var shadow := m.objs[o.value].shadowed;
      ghost var c, now, frames := m.view, m.objs, m.frames;
      WalkCan(was, c0, now, c, rank, ext, root, last, o.value, passed);
      if m.objs[o.value].refcount - m.objs[o.value].nrespages == 1 {
        ghost var rem;
        ok, rem := Absorb(m, last, o.value);
        if !ok {
          PagesPanic(was, f0, c0, frames, c, rank, last, o.value, passed);
          WalkPanics(was, f0, c0, now, c, rank, ext, root, last, o.value, passed);
          HandingMost(was, ext, c, rank, last, o.value, rem);
          MostThen(was, was, ext, c0, c, m.view, rank);
          return;
        }
        SightAfter(c0, c, rank, last, o.value);
        PagesAbsorb(was, f0, c0, frames, m.frames, c, rank, last, o.value, passed);
        WalkAbsorb(was, c0, now, m.objs, c, rank, ext, root, last, o.value, passed);
      } else {
        if m.objs[o.value].refcount - m.objs[o.value].nrespages != 2 {
          TooMany(was, f0, c0, rank, o.value);
          WalkPanics(was, f0, c0, now, c, rank, ext, root, last, o.value, passed);
          SightMost(was, ext, c0, c, rank);
          return false;
        }
        WalkDown(was, c0, now, c, rank, ext, root, last, o.value, passed);
        PagesDown(was, f0, c0, frames, c, rank, last, o.value, passed);
        m.Ref(o.value);
        m.Put(last);
        last := o.value;
      }
      passed := passed + [o.value];
      o := shadow;
      WalkFacts(was, c0, m.objs, m.view, rank, ext, root, last, o, passed);
    }
    m.Facts();
    WalkFacts(was, c0, m.objs, m.view, rank, ext, root, last, o, passed);
    WalkEnd(was, c0, m.objs, m.view, rank, ext, root, last, o, passed);
    PagesEnd(was, f0, c0, Referenced(m.objs, last, -1), m.frames, m.view, rank, ext, root, last, passed);
    SightMost(was, ext, c0, m.view, rank);
    m.Put(last);
    ok := true;
  }

  // ----- every virtual memory area -----

  /** Nothing is left to collapse below `r`. */
  ghost predicate Compact(objs: map<nat, MObj>, c: Chains, rank: map<nat, nat>, r: nat)
    requires Ranked(c, rank)
  {
    r in c && forall x :: x in Shadows(c, rank, Some(r)) && x != r ==> x in objs && Spare(objs[x]) == 2
  }

  /** From one state to a later one: no page is seen differently, the counts of the survivors are
      the same, and only objects with one spare reference went. */
  ghost predicate Tidied(was: map<nat, MObj>, c0: Chains, now: map<nat, MObj>, c: Chains, rank: map<nat, nat>) {
    && Ranked(c0, rank) && Ranked(c, rank) && was.Keys == c0.Keys && now.Keys == c.Keys
    && SameSight(c0, c, rank) && SameChains(c0, c, rank) && SparesSame(was, now)
    && (forall x :: x in c0 && x !in c ==> Spare(was[x]) == 1)
  }

  lemma TidiedThen(was: map<nat, MObj>, c0: Chains, mid: map<nat, MObj>, c: Chains, now: map<nat, MObj>, c': Chains,
                   rank: map<nat, nat>)
    requires Tidied(was, c0, mid, c, rank) && Tidied(mid, c, now, c', rank)
    ensures Tidied(was, c0, now, c', rank)
  {
    hide Lookup, Shadows, Ranked, SameSight, SameChains;
    TidiedFacts(was, c0, mid, c, rank);
    TidiedFacts(mid, c, now, c', rank);
    SightThen(c0, c, c', rank);
    ChainsThen(c0, c, c', rank);
  }

  lemma ChainsThen(c0: Chains, c: Chains, c': Chains, rank: map<nat, nat>)
    requires Ranked(c0, rank) && Ranked(c, rank) && Ranked(c', rank)
    requires (forall x :: x in c ==> x in c0) && (forall x :: x in c' ==> x in c)
    requires SameChains(c0, c, rank) && SameChains(c, c', rank)
    ensures SameChains(c0, c', rank)
  {
    hide Shadows, Ranked;
    forall r, x | r in c'
      ensures x in Shadows(c', rank, Some(r)) <==> x in Shadows(c0, rank, Some(r)) && x in c'
    {
      assert x in Shadows(c, rank, Some(r)) <==> x in Shadows(c0, rank, Some(r)) && x in c;
      assert x in Shadows(c', rank, Some(r)) <==> x in Shadows(c, rank, Some(r)) && x in c';
    }
  }

  lemma {:induction false} ShadowsHaveParents(c: Chains, rank: map<nat, nat>, p: nat, x: nat)
    requires Ranked(c, rank) && p in c && x in Shadows(c, rank, c[p].shadowed)
    ensures Parents(c, x) != {}
    decreases rank[p]
  {
    var o := c[p].shadowed.value;
    if x == o {
      assert p in Parents(c, o);
    } else {
      ShadowsHaveParents(c, rank, o, x);
    }
  }

  lemma {:induction false} SharedNotOne(objs: map<nat, MObj>, xs: seq<nat>)
    ensures forall x :: x in Shared(objs, xs) ==> x in xs && !(x in objs && Spare(objs[x]) == 1)
  {
    if xs != [] { SharedNotOne(objs, xs[1..]); }
  }

  /** What one collapsed chain means for the pass. */
  lemma CollapseTidies(was: map<nat, MObj>, c0: Chains, now: map<nat, MObj>, c: Chains, rank: map<nat, nat>,
                       ext: multiset<nat>, root: nat)
    requires Collapse(was, c0, now, c, rank, ext, root) && Enough(was, c0, ext)
    requires forall x :: x in Shadows(c0, rank, c0[root].shadowed) ==> x in was && Spare(was[x]) <= 2
    ensures Tidied(was, c0, now, c, rank) && Enough(now, c, ext) && Compact(now, c, rank, root)
    ensures forall r :: r in ext && r in c0 ==> r in c
  {
    hide Lookup, SameSight, SameChains, Parents, Shadows, Shared;
    var shadows := Shadows(c0, rank, c0[root].shadowed);
    TailMembers(c, rank, root);
    TailMembers(c0, rank, root);
    SharedNotOne(was, shadows);
    forall x | x in shadows
      ensures x in was && Spare(was[x]) >= 1 + ext[x]
    {
      ShadowsHaveParents(c0, rank, root, x);
    }
  }

  /** A top object whose chain is compact stays so. */
  lemma CompactStays(was: map<nat, MObj>, c0: Chains, now: map<nat, MObj>, c: Chains, rank: map<nat, nat>, r: nat)
    requires Tidied(was, c0, now, c, rank) && Compact(was, c0, rank, r) && r in c
    ensures Compact(now, c, rank, r)
  {
    hide Lookup, Ranked, Shadows, SameSight;
  }

  lemma FitsSpares(objs: map<nat, MObj>, frames: map<nat, PFrame>, c: Chains, rank: map<nat, nat>, root: nat)
    requires Ranked(c, rank) && root in c && Fits(objs, frames, c, rank, root)
    ensures forall x :: x in Shadows(c, rank, c[root].shadowed) ==> x in objs && Spare(objs[x]) <= 2
  {
    hide Shadows;
  }

  /** The kernel's assertions are as good on the chain as it is now as on the chain as it was. */
  lemma FitsStays(was: map<nat, MObj>, f0: map<nat, PFrame>, c0: Chains, now: map<nat, MObj>, f: map<nat, PFrame>,
                  c: Chains, rank: map<nat, nat>, r: nat)
    requires Tidied(was, c0, now, c, rank) && PagesDone(was, f0, c0, now, f, c, rank) && r in c && r in c0
    ensures Fits(was, f0, c0, rank, r) <==> Fits(now, f, c, rank, r)
  {
    hide Lookup, SameSight, Parents, Shadows, Smooth;
    TailMembers(c, rank, r);
    TailMembers(c0, rank, r);
    var chain', chain := Shadows(c, rank, c[r].shadowed), Shadows(c0, rank, c0[r].shadowed);
    forall x
      ensures x in chain' <==> x in chain && x in c
    {
      assert x in Shadows(c, rank, Some(r)) <==> x in Shadows(c0, rank, Some(r)) && x in c;
    }
    forall x | x in chain'
      ensures Parents(c, x) != {}
    {
      ShadowsHaveParents(c, rank, r, x);
    }
  }

  lemma TailMembers(c: Chains, rank: map<nat, nat>, r: nat)
    requires Ranked(c, rank) && r in c
    ensures forall x :: x in Shadows(c, rank, c[r].shadowed) <==> x in Shadows(c, rank, Some(r)) && x != r
    ensures forall x :: x in Shadows(c, rank, c[r].shadowed) ==> x in c
  {
    ShadowsAt(c, rank, r);
    if c[r].shadowed.Some? { ShadowsBelow(c, rank, c[r].shadowed.value); }
  }

  /** One pass of the daemon over the top objects of all areas.  It comes to its end exactly when every
      chain fits, and then nobody sees another page and no chain has an object left to collapse.  When
      an assertion fails, nobody sees another page but for the object that is just being taken out. */
  method Pass(m: Memory, roots: seq<nat>, ghost rank: map<nat, nat>) returns (ok: bool)
    requires m.Valid() && Ranked(m.view, rank) && Enough(m.objs, m.view, multiset(roots))
    requires forall r :: r in roots ==> r in m.objs
    modifies m
    ensures m.Valid() && Ranked(old(m.view), rank) && Ranked(m.view, rank)
    ensures MostSight(old(m.objs), multiset(roots), old(m.view), m.view, rank)
    ensures ok <==> forall r :: r in roots ==> FitsAt(old(m.objs), old(m.frames), old(m.view), rank, r)
    ensures ok ==> SameSight(old(m.view), m.view, rank)
    ensures ok ==> Tidied(old(m.objs), old(m.view), m.objs, m.view, rank) && Enough(m.objs, m.view, multiset(roots))
    ensures ok ==> forall r :: r in roots ==> Compact(m.objs, m.view, rank, r)
  {
    hide Memory.Valid, Enough, Ranked, SameSight, MostSight, Shadows, Tidied, Compact, Collapse, Fits, PagesDone;
    ghost var was, f0, c0, ext := m.objs, m.frames, m.view, multiset(roots);
    m.Facts();
    TidiedStart(was, c0, rank);
    PagesRefl(was, f0, c0, rank);
    var i := 0;
    while i < |roots|
      invariant 0 <= i <= |roots| && m.Valid() && Enough(m.objs, m.view, ext)
      invariant Tidied(was, c0, m.objs, m.view, rank) && Ranked(m.view, rank)
      invariant PagesDone(was, f0, c0, m.objs, m.frames, m.view, rank)
      invariant forall r :: r in roots ==> r in m.objs && r in m.view
      invariant forall j :: 0 <= j < i ==> Compact(m.objs, m.view, rank, roots[j])
      invariant forall j :: 0 <= j < i ==> FitsAt(was, f0, c0, rank, roots[j])
    {
      ghost var now, f, c := m.objs, m.frames, m.view;
      m.Facts();
      TidiedFacts(was, c0, now, c, rank);
      FitsStays(was, f0, c0, now, f, c, rank, roots[i]);
      var done := CollapseChain(m, roots[i], ext, rank);
      m.Facts();
      if !done {
        TidiedSingles(was, c0, now, c, rank);
        MostThen(was, now, ext, c0, c, m.view, rank);
        assert !FitsAt(was, f0, c0, rank, roots[i]);
        return false;
      }
      FitsSpares(now, f, c, rank, roots[i]);
      CollapseTidies(now, c, m.objs, m.view, rank, ext, roots[i]);
      TidiedThen(was, c0, now, c, m.objs, m.view, rank);
      PagesThen(was, f0, c0, now, f, c, m.objs, m.frames, m.view, rank);
      forall j | 0 <= j < i
        ensures Compact(m.objs, m.view, rank, roots[j])
      {
        CompactStays(now, c, m.objs, m.view, rank, roots[j]);
      }
      i := i + 1;
    }
    TidiedFacts(was, c0, m.objs, m.view, rank);
    SightMost(was, ext, c0, m.view, rank);
    ok := true;
  }

  ghost predicate FitsAt(objs: map<nat, MObj>, frames: map<nat, PFrame>, c: Chains, rank: map<nat, nat>, r: nat) {
    Ranked(c, rank) && r in c && Fits(objs, frames, c, rank, r)
  }

  lemma TidiedSingles(was: map<nat, MObj>, c0: Chains, now: map<nat, MObj>, c: Chains, rank: map<nat, nat>)
    requires Tidied(was, c0, now, c, rank)
    ensures forall x :: x in c && Single(now, x) ==> Single(was, x)
  {
    hide Lookup, Shadows, Ranked, SameSight, SameChains;
  }

  lemma TidiedStart(objs: map<nat, MObj>, c: Chains, rank: map<nat, nat>)
    requires Ranked(c, rank) && objs.Keys == c.Keys
    ensures Tidied(objs, c, objs, c, rank)
  {
    hide Lookup, Shadows, Ranked;
    forall r, x | r in c
      ensures x in Shadows(c, rank, Some(r)) ==> x in c
    {
      ShadowsBelow(c, rank, r);
    }
  }

  lemma TidiedFacts(was: map<nat, MObj>, c0: Chains, now: map<nat, MObj>, c: Chains, rank: map<nat, nat>)
    requires Tidied(was, c0, now, c, rank)
    ensures Ranked(c0, rank) && Ranked(c, rank) && SameSight(c0, c, rank) && forall x :: x in c ==> x in c0
  {
    hide Lookup, Shadows, Ranked;
  }

  // ----- a page that two objects of a chain have -----

  /** Object 1 over 2 over 3, and page 5 resident in both 1 and 2. */
  ghost function TwiceObjs(): map<nat, MObj> {
    map[1 := MObj(2, 1, [11], Some(2)), 2 := MObj(2, 1, [12], Some(3)), 3 := MObj(1, 0, [], None)]
  }

  ghost function TwiceView(): Chains {
    map[1 := Node(map[5 := 11], Some(2)), 2 := Node(map[5 := 12], Some(3)), 3 := Node(map[], None)]
  }

  ghost function TwiceFrames(ready: bool): map<nat, PFrame> {
    map[11 := PFrame(1, 5, 0, false, false), 12 := PFrame(2, 5, if ready then 1 else 0, ready, false)]
  }

  ghost function TwiceRank(): map<nat, nat> {
    map[1 := 2, 2 := 1, 3 := 0]
  }

  method BuildTwo() returns (m: Memory)
    ensures fresh(m) && m.Valid() && m.frames == map[]
    ensures m.objs == map[2 := MObj(0, 0, [], Some(3)), 3 := MObj(1, 0, [], None)]
    ensures m.view == map[2 := Node(map[], Some(3)), 3 := Node(map[], None)]
  {
    hide Memory.Valid;
    m := new Memory();
    m.NewObject(3);
    m.NewObject(2);
    m.Relink(2, Some(3));
    m.Ref(3);
  }

  /** The three objects without pages. */
  method BuildThree() returns (m: Memory)
    ensures fresh(m) && m.Valid() && m.frames == map[]
    ensures m.objs == map[1 := MObj(1, 0, [], Some(2)), 2 := MObj(1, 0, [], Some(3)), 3 := MObj(1, 0, [], None)]
    ensures m.view == map[1 := Node(map[], Some(2)), 2 := Node(map[], Some(3)), 3 := Node(map[], None)]
  {
    hide Memory.Valid;
    m := BuildTwo();
    m.NewObject(1);
    m.Relink(1, Some(2));
    m.Ref(2);
    m.Ref(1);
  }

  method BuildTwice(ready: bool) returns (m: Memory)
    ensures fresh(m) && m.Valid()
    ensures m.objs == TwiceObjs() && m.frames == TwiceFrames(ready) && m.view == TwiceView()
  {
    hide Memory.Valid;
    m := BuildThree();
    var upper := m.Alloc(Some(11), 1, 5);
    assert m.objs[1] == MObj(2, 1, [11], Some(2)) by { assert [11] + [] == [11]; }
    assert m.objs == map[1 := MObj(2, 1, [11], Some(2)), 2 := MObj(1, 0, [], Some(3)), 3 := MObj(1, 0, [], None)];
    assert m.view == map[1 := Node(map[5 := 11], Some(2)), 2 := Node(map[], Some(3)), 3 := Node(map[], None)];
    assert m.frames == map[11 := PFrame(1, 5, 0, false, false)];
    var lower := m.Alloc(Some(12), 2, 5);
    assert m.objs[2] == MObj(2, 1, [12], Some(3)) by { assert [12] + [] == [12]; }
    assert m.objs == TwiceObjs() && m.view == TwiceView();
    if ready {
      m.Pin(12);
      m.Dirty(12, true);
    }
  }

  lemma TwiceCounts()
    ensures Ranked(TwiceView(), TwiceRank()) && Enough(TwiceObjs(), TwiceView(), multiset([1]))
  {
    var c := TwiceView();
    assert Parents(c, 1) == {} && Parents(c, 2) == {1} && Parents(c, 3) == {2};
  }

  lemma TwiceFits(ready: bool)
    requires Ranked(TwiceView(), TwiceRank())
    ensures Fits(TwiceObjs(), TwiceFrames(ready), TwiceView(), TwiceRank(), 1) <==> ready
  {
    var c, rank, objs, frames := TwiceView(), TwiceRank(), TwiceObjs(), TwiceFrames(ready);
    ShadowsAt(c, rank, 2);
    ShadowsAt(c, rank, 3);
    assert Shadows(c, rank, Some(2)) == [2];
    assert 1 in c && 5 in c[1].pages && Near(objs, c, rank, 1, 2);
    assert Doubled(objs, c, rank, 2, 5);
    assert frames[12].obj == 2 && Single(objs, 2);
    assert GoodPage(objs, c, rank, 2, frames[12]) <==> ready;
    assert Smooth(objs, frames, c, rank, 2) <==> ready;
    assert 2 in Shadows(c, rank, c[1].shadowed);
  }

  /** An unpinned page of an object that is taken out, when the object above has that page too, makes
      the pass fail, although no object has too many references; pinned once and dirty it goes. */
  method TwiceResident() returns (plain: bool, ready: bool)
    ensures !plain && ready
  {
    hide Memory.Valid, Ranked, Enough, Fits;
    TwiceCounts();
    TwiceFits(false);
    TwiceFits(true);
    var m := BuildTwice(false);
    plain := Pass(m, [1], TwiceRank());
    assert 1 in [1];
    m := BuildTwice(true);
    ready := Pass(m, [1], TwiceRank());
  }
}
