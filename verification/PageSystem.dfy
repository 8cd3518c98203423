/** The page allocator's public operations over a list of page groups (kernel/mm/page.c):
    allocation with splitting and reclaim, freeing with joining, and the free-page counter. */
module PageSystem {
  import opened Arithmetic
  import opened BuddyBlocks
  import opened BuddyLists
  import opened PageAllocator
  import opened Lists
  import opened PageSizes

  /** A block that the slab allocator gives back while an allocation is under way: its address and
      order, and the group and block number behind the address. */
  datatype Reclaimed = Reclaimed(addr: nat, order: nat, group: nat, index: nat)

  /** The pages on all lists of all groups. */
  function Total(frees: seq<seq<seq<nat>>>): nat {
    if frees == [] then 0 else Total(frees[..|frees| - 1]) + Pages(frees[|frees| - 1])
  }

  lemma {:induction false} TotalUpdate(frees: seq<seq<seq<nat>>>, j: nat, f: seq<seq<nat>>)
    requires j < |frees|
    ensures Total(frees[j := f]) == Total(frees) + Pages(f) - Pages(frees[j])
  {
    var n := |frees| - 1;
    if j == n {
      assert frees[j := f][..n] == frees[..n];
    } else {
      TotalUpdate(frees[..n], j, f);
      assert frees[j := f][..n] == frees[..n][j := f];
    }
  }

  lemma TotalAppend(frees: seq<seq<seq<nat>>>, f: seq<seq<nat>>)
    ensures Total(frees + [f]) == Total(frees) + Pages(f)
  {
    assert (frees + [f])[..|frees|] == frees;
  }

  datatype Allocation = Panic | OutOfMemory | Allocated(addr: nat)

  lemma Aligned(x: nat)
    ensures AlignDown(x) % PAGE_SIZE == 0
  {
  }

  /** Every block of a group lies between the group's first and last byte. */
  lemma {:induction false} BlockInGroup(base: nat, tops: nat, k: nat, i: nat)
    requires k <= TOP && i < Count(tops, k)
    ensures base <= AddrOf(base, k, i) && AddrOf(base, k, i) + Size(k) <= AddrOf(base, TOP, tops)
    decreases TOP - k
  {
    Pow2Positive(k);
    if k == TOP {
      MulLess(i, tops, Size(k));
    } else {
      BlockInGroup(base, tops, k + 1, i / 2);
      AddrHalves(base, k, i / 2);
      assert Size(k + 1) == 2 * Size(k);
    }
  }

  /** A block lies inside every larger block that contains its number. */
  lemma {:induction false} BlockInBlock(base: nat, k: nat, i: nat, d: nat)
    ensures AddrOf(base, k + d, Up(i, d)) <= AddrOf(base, k, i)
    ensures AddrOf(base, k, i) + Size(k) <= AddrOf(base, k + d, Up(i, d)) + Size(k + d)
    decreases d
  {
    if d > 0 {
      BlockInBlock(base, k + 1, i / 2, d - 1);
      AddrHalves(base, k, i / 2);
      assert Size(k + 1) == 2 * Size(k);
      Pow2Positive(k);
    }
  }

  lemma SameOrderApart(base: nat, k: nat, i: nat, j: nat)
    requires i != j
    ensures AddrOf(base, k, i) + Size(k) <= AddrOf(base, k, j) || AddrOf(base, k, j) + Size(k) <= AddrOf(base, k, i)
  {
    if i < j { MulLess(i, j, Size(k)); } else { MulLess(j, i, Size(k)); }
  }

  /** Blocks that share no page occupy disjoint address ranges: outstanding blocks never overlap
      in memory. */
  lemma BlocksApart(base: nat, a: Block, b: Block)
    requires !Overlap(a, b)
    ensures var x, y := AddrOf(base, a.order, a.index), AddrOf(base, b.order, b.index);
            x + Size(a.order) <= y || y + Size(b.order) <= x
  {
    if a.order <= b.order {
      var d := b.order - a.order;
      BlockInBlock(base, a.order, a.index, d);
      SameOrderApart(base, b.order, Up(a.index, d), b.index);
    } else {
      var d := a.order - b.order;
      BlockInBlock(base, b.order, b.index, d);
      SameOrderApart(base, a.order, Up(b.index, d), a.index);
    }
  }

  /** The order that a request gets: the smallest that holds it, but order 0 for requests of 2^31 pages and
      more, which the source's cast to a signed int makes negative. */
  ghost predicate OrderIs(npages: nat, order: nat) {
    if npages >= 0x8000_0000 then order == 0
    else order <= TOP && npages <= Pow2(order) && forall k: nat :: k < order ==> Pow2(k) < npages
  }

  lemma OneOrder(npages: nat, j: nat, k: nat)
    requires OrderIs(npages, j) && OrderIs(npages, k)
    ensures j == k
  {
    hide Pow2;
    assert j < k ==> Pow2(j) < npages;
    assert k < j ==> Pow2(k) < npages;
  }

  /** The search loop of `page_alloc_n` and `page_free_n`; `None` is the panic. */
  method OrderFor(npages: nat) returns (order: Option<nat>)
    requires npages < 0x1_0000_0000
    ensures order.None? <==> Pow2(TOP) < npages < 0x8000_0000
    ensures order.Some? ==> OrderIs(npages, order.value)
  {
    var signed: int := if npages < 0x8000_0000 then npages else npages - 0x1_0000_0000;
    var k := 0;
    while k < PAGE_NSIZES
      invariant 0 <= k <= PAGE_NSIZES
      invariant forall j: nat :: j < k ==> Pow2(j) < signed
    {
      Pow2Positive(k);
      if Pow2(k) >= signed {
        Pow2Mono(k, TOP);
        return Some(k);
      }
      k := k + 1;
    }
    assert Pow2(0) < signed && Pow2(TOP) < signed;
    return None;
  }

  ghost predicate NoneFreeIn(tops: nat, out: set<Block>, k: nat)
    requires k <= TOP
  {
    forall i: nat :: i < Count(tops, k) ==> !Free(out, Block(k, i))
  }

  ghost predicate NoneFreeAll(tops: seq<nat>, outs: seq<set<Block>>, k: nat)
    requires k <= TOP && |tops| == |outs|
  {
    forall a :: 0 <= a < |tops| ==> NoneFreeIn(tops[a], outs[a], k)
  }

  /** A larger free block contains smaller ones. */
  lemma {:induction false} NoneFreeAbove(tops: nat, out: set<Block>, k: nat, j: nat)
    requires k <= j <= TOP && NoneFreeIn(tops, out, k)
    ensures NoneFreeIn(tops, out, j)
  {
    hide Free;
    if k < j {
      NoneFreeAbove(tops, out, k, j - 1);
      forall i: nat | i < Count(tops, j)
        ensures !Free(out, Block(j, i))
      {
        FreeHalves(out, j - 1, i);
        assert 2 * i < Count(tops, j - 1);
      }
    }
  }

  /** The more blocks are out the fewer are free. */
  lemma NoneFreeMore(tops: nat, out: set<Block>, out': set<Block>, k: nat)
    requires k <= TOP && out <= out' && NoneFreeIn(tops, out, k)
    ensures NoneFreeIn(tops, out', k)
  {
    forall i: nat | i < Count(tops, k)
      ensures !Free(out', Block(k, i))
    {
      assert !Free(out, Block(k, i));
    }
  }

  /** A block on a list is free. */
  lemma ListedFree(base: nat, tops: nat, free: seq<seq<nat>>, bits: seq<seq<bool>>, idx: seq<seq<nat>>, out: set<Block>,
                   k: nat)
    requires Shape(base, tops, free, bits, idx) && Canonical(idx, tops, out) && k <= TOP && free[k] != []
    ensures !NoneFreeIn(tops, out, k)
  {
    hide Free, BitsAgree, Count;
    assert Listed(idx, k, idx[k][0]);
  }

  /** What is out after the first `n` reclaims. */
  ghost function OutsAfter(outs: seq<set<Block>>, reclaims: seq<seq<Reclaimed>>, n: nat): seq<set<Block>>
    requires n <= |reclaims|
  {
    seq(|outs|, a requires 0 <= a < |outs| => outs[a] - FreedUpTo(reclaims, n, a))
  }

  lemma NoneAfter(outs: seq<set<Block>>, reclaims: seq<seq<Reclaimed>>)
    ensures OutsAfter(outs, reclaims, 0) == outs
  {
    forall a | 0 <= a < |outs|
      ensures OutsAfter(outs, reclaims, 0)[a] == outs[a]
    {
      assert FreedUpTo(reclaims, 0, a) == {};
    }
  }

  lemma OneMoreAfter(outs: seq<set<Block>>, outs': seq<set<Block>>, reclaims: seq<seq<Reclaimed>>, n: nat)
    requires n < |reclaims| && |outs'| == |outs|
    requires forall a :: 0 <= a < |outs| ==> outs'[a] == OutsAfter(outs, reclaims, n)[a] - FreedIn(reclaims[n], a)
    ensures outs' == OutsAfter(outs, reclaims, n + 1)
  {
    hide FreedIn;
    forall a | 0 <= a < |outs|
      ensures outs'[a] == OutsAfter(outs, reclaims, n + 1)[a]
    {
      assert FreedUpTo(reclaims, n + 1, a) == FreedUpTo(reclaims, n, a) + FreedIn(reclaims[n], a);
    }
  }

  /** No block of the order is free at first, and none of the next order even at the last search. */
  ghost predicate Exhausted(tops: seq<nat>, outs: seq<set<Block>>, reclaims: seq<seq<Reclaimed>>, order: nat)
    requires order <= TOP && |tops| == |outs| && 0 < |reclaims|
  {
    && NoneFreeAll(tops, outs, order)
    && (order < TOP ==> NoneFreeAll(tops, OutsAfter(outs, reclaims, |reclaims| - 1), order + 1))
  }

  lemma {:induction false} FreedGrows(reclaims: seq<seq<Reclaimed>>, m: nat, n: nat, a: nat)
    requires m <= n <= |reclaims|
    ensures FreedUpTo(reclaims, m, a) <= FreedUpTo(reclaims, n, a)
  {
    hide FreedIn;
    if m < n { FreedGrows(reclaims, m, n - 1, a); }
  }

  /** A search that succeeds means that not everything was exhausted. */
  lemma NotExhausted(tops: seq<nat>, outs: seq<set<Block>>, reclaims: seq<seq<Reclaimed>>, order: nat, n: nat)
    requires order < TOP && |tops| == |outs| && n < |reclaims|
    requires !NoneFreeAll(tops, OutsAfter(outs, reclaims, n), order + 1)
    ensures !Exhausted(tops, outs, reclaims, order)
  {
    hide NoneFreeIn, FreedUpTo;
    var a :| 0 <= a < |tops| && !NoneFreeIn(tops[a], OutsAfter(outs, reclaims, n)[a], order + 1);
    FreedGrows(reclaims, n, |reclaims| - 1, a);
    var last := OutsAfter(outs, reclaims, |reclaims| - 1);
    if NoneFreeIn(tops[a], last[a], order + 1) {
      NoneFreeMore(tops[a], last[a], OutsAfter(outs, reclaims, n)[a], order + 1);
    }
  }

  ghost predicate Apart(g: PageGroup, h: PageGroup) {
    g.limit <= h.base || h.limit <= g.base
  }

  class PageSystem {
    var groups: seq<PageGroup>
    var freecount: nat

    ghost function Frees(): seq<seq<seq<nat>>>
      reads this, groups
    {
      seq(|groups|, a requires 0 <= a < |groups| reads this, groups => groups[a].free)
    }

    /** Groups are distinct and apart in memory. */
    ghost predicate Separate()
      reads this
    {
      forall a, b :: 0 <= a < b < |groups| ==> groups[a] != groups[b] && Apart(groups[a], groups[b])
    }

    /** Every group is canonical and the counter is the sum of 2^k over all listed blocks. */
    ghost predicate Valid()
      reads this, groups
    {
      && Separate()
      && (forall a :: 0 <= a < |groups| ==> groups[a].Valid())
      && freecount == Total(Frees())
    }

    /** `page_init`: no groups, nothing free. */
    constructor ()
      ensures Valid() && groups == [] && freecount == 0
    {
      groups, freecount := [], 0;
    }

    /** `_pagegroup_from_address` on an address inside block (k, i) of group `j`. */
    method GroupOf(addr: nat, ghost j: nat, ghost k: nat, ghost i: nat) returns (a: nat)
      requires Separate() && j < |groups| && k <= TOP && i < Count(groups[j].tops, k)
      requires groups[j].limit == AddrOf(groups[j].base, TOP, groups[j].tops)
      requires addr == AddrOf(groups[j].base, k, i)
      ensures a == j
    {
      BlockInGroup(groups[j].base, groups[j].tops, k, i);
      Pow2Positive(k);
      hide AddrOf;
      a := 0;
      while !(groups[a].base <= addr < groups[a].limit)
        invariant a <= j
        decreases j - a
      {
        a := a + 1;
      }
    }

    /** `_page_free_order`: the block leaves the outstanding ones of its group; no other group
        changes; the counter grows by the block's pages. */
    method FreeOrder(addr: nat, order: nat, ghost j: nat, ghost i: nat)
      requires Valid() && j < |groups| && Block(order, i) in groups[j].out
      requires addr == AddrOf(groups[j].base, order, i)
      modifies this`freecount, groups
      ensures Valid()
      ensures groups[j].out == old(groups[j].out) - {Block(order, i)}
      ensures forall a :: 0 <= a < |groups| && a != j ==> groups[a].out == old(groups[a].out)
      ensures freecount == old(freecount) + Pow2(order)
    {
      hide Shape, Canonical, Pages, Total, Pow2;
      var a := GroupOf(addr, j, order, i);
      ghost var frees := Frees();
      groups[a].GiveBack(order, addr, i);
      freecount := freecount + Pow2(order);
      TotalUpdate(frees, j, groups[j].free);
      assert Frees() == frees[j := groups[j].free];
    }
  
    /** No block of order `k` is wholly free in any group. */
    ghost predicate NoneFree(k: nat)
      requires k <= TOP
      reads this, groups
    {
      NoneFreeAll(Tops(), Outs(), k)
    }

    ghost function Tops(): seq<nat>
      reads this
    {
      seq(|groups|, a requires 0 <= a < |groups| reads this => groups[a].tops)
    }

    /** All lists of order `k` are empty. */
    ghost predicate EmptyAt(k: nat)
      reads this, groups
    {
      forall a :: 0 <= a < |groups| ==> |groups[a].free| == PAGE_NSIZES && (k < PAGE_NSIZES ==> groups[a].free[k] == [])
    }

    lemma EmptyListsNoneFree(k: nat)
      requires Valid() && k <= TOP && forall j :: k <= j <= TOP ==> EmptyAt(j)
      ensures NoneFree(k)
    {
      forall a | 0 <= a < |groups|
        ensures NoneFreeIn(groups[a].tops, groups[a].out, k)
      {
        var g := groups[a];
        assert g.Valid();
        forall j | k <= j <= TOP
          ensures g.idx[j] == []
        {
          assert EmptyAt(j);
        }
        EmptyListsMeanFull(g.idx, g.tops, g.out, k);
      }
    }

    lemma ListedAt(a: nat, k: nat)
      requires Valid() && a < |groups| && k <= TOP && k < |groups[a].free| && groups[a].free[k] != []
      ensures !NoneFree(k)
    {
      hide Shape, Canonical, Total, NoneFreeIn;
      var g := groups[a];
      assert g.Valid();
      ListedFree(g.base, g.tops, g.free, g.bits, g.idx, g.out, k);
      assert Tops()[a] == g.tops && Outs()[a] == g.out;
    }

    lemma AboveFree(k: nat, j: nat)
      requires k <= j <= TOP && !NoneFree(j)
      ensures !NoneFree(k)
    {
      hide NoneFreeIn;
      var a :| 0 <= a < |groups| && !NoneFreeIn(Tops()[a], Outs()[a], j);
      if NoneFreeIn(Tops()[a], Outs()[a], k) { NoneFreeAbove(Tops()[a], Outs()[a], k, j); }
    }

    /** The scan for a group with an entry on its list of order `k`. */
    method FindListed(k: nat) returns (a: Option<nat>)
      requires Valid() && k <= TOP
      ensures a.Some? ==>
                a.value < |groups| && k < |groups[a.value].free| && groups[a.value].free[k] != [] && !NoneFree(k)
      ensures a.None? ==> EmptyAt(k)
    {
      hide Canonical, Outstanding, Total, AddrOf;
      var b := 0;
      while b < |groups|
        invariant 0 <= b <= |groups|
        invariant forall c :: 0 <= c < b ==> |groups[c].free| == PAGE_NSIZES && groups[c].free[k] == []
      {
        assert groups[b].Valid();
        if groups[b].free[k] != [] {
          ListedAt(b, k);
          return Some(b);
        }
        b := b + 1;
      }
      return None;
    }

    /** Splits a listed block of order `norder` down to `order` and hands out the result. */
    method TakeFrom(a: nat, norder: nat, order: nat) returns (addr: nat, ghost i: nat)
      requires Valid() && a < |groups| && order <= norder <= TOP
      requires norder < |groups[a].free| && groups[a].free[norder] != []
      modifies this`freecount, groups
      ensures Valid()
      ensures addr == AddrOf(groups[a].base, order, i) && Block(order, i) !in old(groups[a].out)
      ensures groups[a].out == old(groups[a].out) + {Block(order, i)}
      ensures forall b :: 0 <= b < |groups| && b != a ==> groups[b].out == old(groups[b].out)
      ensures freecount + Pow2(order) == old(freecount)
    {
      hide Shape, Canonical, Pages, Total, Pow2;
      ghost var frees := Frees();
      addr, i := groups[a].AllocFrom(norder, order);
      TotalUpdate(frees, a, groups[a].free);
      freecount := freecount - Pow2(order);
      assert Frees() == frees[a := groups[a].free];
    }

    ghost predicate HeldOne(r: Reclaimed)
      reads this, groups
    {
      && r.group < |groups| && Block(r.order, r.index) in groups[r.group].out
      && r.addr == AddrOf(groups[r.group].base, r.order, r.index)
    }

    /** The blocks are outstanding in their groups, at the addresses given, each listed once. */
    ghost predicate Held(rs: seq<Reclaimed>)
      reads this, groups
    {
      && (forall r :: r in rs ==> HeldOne(r))
      && (forall a, b :: 0 <= a < b < |rs| ==> Key(rs[a]) != Key(rs[b]))
    }

    /** Freeing one held block leaves the others held. */
    twostate lemma HeldAfter(rs: seq<Reclaimed>)
      requires rs != [] && old(Held(rs)) && groups == old(groups)
      requires forall a :: 0 <= a < |groups| ==>
                 groups[a].out == old(groups[a].out) - (if a == rs[0].group then {Block(rs[0].order, rs[0].index)}
                       else {})
      ensures Held(rs[1..])
    {
      forall q | q in rs[1..]
        ensures HeldOne(q)
      {
        var n :| 0 <= n < |rs| - 1 && rs[1..][n] == q;
        assert rs[n + 1] == q && Key(rs[0]) != Key(rs[n + 1]);
        assert q in rs && old(HeldOne(q));
      }
    }

    /** `slab_allocators_reclaim` as seen by the page allocator: some outstanding blocks are freed;
        `rest` are held blocks that later calls will free. */
    method Reclaim(rs: seq<Reclaimed>, ghost rest: seq<Reclaimed>)
      requires Valid() && Held(rs + rest)
      modifies this`freecount, groups
      ensures Valid() && Held(rest)
      ensures forall a :: 0 <= a < |groups| ==> groups[a].out == old(groups[a].out) - FreedIn(rs, a)
      ensures freecount == old(freecount) + PagesIn(rs)
      decreases rs
    {
      hide PageSystem.Valid, AddrOf;
      if rs != [] {
        var r := rs[0];
        assert r in rs + rest;
        FreeOrder(r.addr, r.order, r.group, r.index);
        HeldAfter(rs + rest);
        assert (rs + rest)[1..] == rs[1..] + rest;
        ghost var mid := Outs();
        Reclaim(rs[1..], rest);
        forall a | 0 <= a < |groups|
          ensures groups[a].out == old(groups[a].out) - FreedIn(rs, a)
        {
          FreedFirst(rs, a);
          assert groups[a].out == mid[a] - FreedIn(rs[1..], a);
        }
      } else {
        assert rs + rest == rest;
      }
    }

    ghost function Outs(): seq<set<Block>>
      reads this, groups
    {
      seq(|groups|, a requires 0 <= a < |groups| reads this, groups => groups[a].out)
    }

    /** One search of `_page_split`: the smallest larger order with an entry, in group order. */
    method SplitSearch(order: nat) returns (addr: Option<nat>, ghost j: nat, ghost i: nat)
      requires Valid() && order <= TOP
      modifies this`freecount, groups
      ensures Valid()
      ensures addr.Some? ==>
                && j < |groups| && addr.value == AddrOf(groups[j].base, order, i)
                && Block(order, i) !in old(Outs()[j]) && Outs() == old(Outs())[j := old(Outs()[j]) + {Block(order, i)}]
                && freecount + Pow2(order) == old(freecount) && order < TOP && !old(NoneFree(order + 1))
      ensures addr.None? ==>
                Outs() == old(Outs()) && freecount == old(freecount) && (forall k :: order < k <= TOP ==> EmptyAt(k))
      ensures addr.None? && old(EmptyAt(order)) ==> EmptyAt(order)
    {
      hide PageSystem.Valid, AddrOf, NoneFreeAll, Pow2;
      j, i := 0, 0;
      var norder := order + 1;
      var a: Option<nat> := None;
      while norder < PAGE_NSIZES && a.None?
        modifies {}
        invariant order < norder <= PAGE_NSIZES && Valid() && Outs() == old(Outs())
        invariant old(EmptyAt(order)) ==> EmptyAt(order)
        invariant forall k :: order < k < norder ==> EmptyAt(k)
        invariant a.Some? ==>
                    && norder <= TOP && a.value < |groups| && !old(NoneFree(norder))
                    && norder < |groups[a.value].free| && groups[a.value].free[norder] != []
        decreases PAGE_NSIZES - norder, a.None?
      {
        a := FindListed(norder);
        if a.None? {
          norder := norder + 1;
        }
      }
      if a.None? {
        return None, 0, 0;
      }
      AboveFree(order + 1, norder);
      var p;
      p, i := TakeFrom(a.value, norder, order);
      j := a.value;
      assert Outs() == old(Outs())[j := old(Outs()[j]) + {Block(order, i)}];
      return Some(p), j, i;
    }

    /** Being held depends on the outstanding blocks alone. */
    twostate lemma HeldSame(rs: seq<Reclaimed>)
      requires old(Held(rs)) && groups == old(groups) && Outs() == old(Outs())
      ensures Held(rs)
    {
      forall r | r in rs
        ensures HeldOne(r)
      {
        assert old(HeldOne(r));
        assert Outs()[r.group] == old(Outs()[r.group]);
      }
    }

    /** One turn of the retry loop of `_page_split`: a search and, if it fails, a reclaim. */
    method Attempt(order: nat, rs: seq<Reclaimed>, ghost rest: seq<Reclaimed>)
      returns (addr: Option<nat>, ghost j: nat, ghost i: nat)
      requires Valid() && order <= TOP && Held(rs + rest)
      modifies this`freecount, groups
      ensures Valid()
      ensures addr.Some? ==>
                && j < |groups| && addr.value == AddrOf(groups[j].base, order, i)
                && Block(order, i) !in old(Outs()[j]) && Outs() == old(Outs())[j := old(Outs()[j]) + {Block(order, i)}]
                && freecount + Pow2(order) == old(freecount) && order < TOP && !old(NoneFree(order + 1))
      ensures addr.None? ==> freecount == old(freecount) + PagesIn(rs)
      ensures addr.None? ==>
                Held(rest) && forall a :: 0 <= a < |groups| ==> Outs()[a] == old(Outs()[a]) - FreedIn(rs, a)
      ensures addr.None? && old(EmptyAt(order)) ==> old(NoneFree(order))
      ensures addr.None? && order < TOP ==> old(NoneFree(order + 1))
    {
      hide PageSystem.Valid, AddrOf, NoneFreeIn, Key, Pow2, PagesIn;
      addr, j, i := SplitSearch(order);
      if addr.None? {
        HeldSame(rs + rest);
        if old(EmptyAt(order)) {
          EmptyListsNoneFree(order);
        }
        if order < TOP {
          EmptyListsNoneFree(order + 1);
        }
        assert Tops() == old(Tops());
        Reclaim(rs, rest);
      }
    }

    /** `_page_alloc_order` with the search and the retries of `_page_split`.  `reclaims` are the
        blocks that the slab allocator gives back after each failed search; there is one more
        search than there are retries.

        A block handed out was not outstanding, and nothing is handed out exactly when everything is
        exhausted: no block of the order was free on entry, and none of the next order was free even at
        the last search. */
    method AllocOrder(order: nat, reclaims: seq<seq<Reclaimed>>)
      returns (addr: Option<nat>, ghost j: nat, ghost i: nat, rounds: nat)
      requires Valid() && order <= TOP && 0 < |reclaims| && Held(Flatten(reclaims))
      modifies this`freecount, groups
      ensures Valid() && rounds <= |reclaims|
      ensures addr.Some? ==>
                && j < |groups| && addr.value == AddrOf(groups[j].base, order, i)
                && var outs := OutsAfter(old(Outs()), reclaims, rounds);
                   Block(order, i) !in outs[j] && Outs() == outs[j := outs[j] + {Block(order, i)}]
      ensures addr.None? ==> rounds == |reclaims| && Outs() == OutsAfter(old(Outs()), reclaims, rounds)
      ensures freecount + (if addr.Some? then Pow2(order) else 0) == old(freecount) + PagesUpTo(reclaims, rounds)
      ensures addr.None? <==> Exhausted(Tops(), old(Outs()), reclaims, order)
    {
      hide PageSystem.Valid, PageSystem.Held, PageSystem.EmptyAt, AddrOf, NoneFreeAll, FreedIn, PagesIn, Pow2;
      j, i, rounds := 0, 0, 0;
      ghost var outs, tops := Outs(), Tops();
      NoneAfter(outs, reclaims);
      var a := FindListed(order);
      if a.Some? {
        var p;
        p, i := TakeFrom(a.value, order, order);
        assert Outs() == outs[a.value := outs[a.value] + {Block(order, i)}] && Tops() == tops;
        return Some(p), a.value, i, 0;
      }
      while rounds < |reclaims|
        invariant rounds <= |reclaims| && Valid() && Held(Flatten(reclaims[rounds..]))
        invariant Outs() == OutsAfter(outs, reclaims, rounds)
        invariant freecount == old(freecount) + PagesUpTo(reclaims, rounds)
        invariant if rounds == 0 then EmptyAt(order) else old(NoneFree(order))
        invariant 0 < rounds && order < TOP ==> NoneFreeAll(tops, OutsAfter(outs, reclaims, rounds - 1), order + 1)
        invariant Tops() == tops
      {
        assert reclaims[rounds..][1..] == reclaims[rounds + 1..];
        label Before:
        addr, j, i := Attempt(order, reclaims[rounds], Flatten(reclaims[rounds + 1..]));
        assert Tops() == tops;
        assert order < TOP ==>
                 (old@Before(NoneFree(order + 1)) <==> NoneFreeAll(tops, OutsAfter(outs, reclaims, rounds), order + 1));
        if addr.Some? {
          NotExhausted(tops, outs, reclaims, order, rounds);
          return addr, j, i, rounds;
        }
        OneMoreAfter(outs, Outs(), reclaims, rounds);
        rounds := rounds + 1;
      }
      return None, 0, 0, rounds;
    }

    /** `page_add_range`, of a range with a page boundary inside.  A group that ends up empty is not
        added; one whose usable pages are whole largest blocks keeps the system valid. */
    method AddRange(from: nat, to: nat)
      requires Valid() && AlignDown(from) < AlignDown(to)
      requires forall a :: 0 <= a < |groups| ==> groups[a].limit <= AlignDown(from) || AlignDown(to) <= groups[a].base
      modifies this
      ensures groups == old(groups) || (|groups| == |old(groups)| + 1 && groups[..|old(groups)|] == old(groups))
      ensures |groups| > |old(groups)| ==>
                var g := groups[|old(groups)|];
                && fresh(g) && AlignDown(from) == g.base < g.limit < AlignDown(to) && g.out == {}
                && 0 < Pow2(TOP)
                && freecount == old(freecount) + (g.limit - g.base) / PAGE_SIZE
                && (((g.limit - g.base) / PAGE_SIZE) % Pow2(TOP) == 0 ==> Valid())
      ensures groups == old(groups) ==> Valid() && freecount == old(freecount)
    {
      hide Shape, Canonical, Total, AddrOf, BitsAgree, Up, Pages, Pow2, TailBlock, Bit, Listed, Outstanding, AlignDown;
      Pow2Positive(TOP);
      ghost var frees := Frees();
      Aligned(from);
      Aligned(to);
      var start, end := AlignDown(from), AlignDown(to);
      var g := new PageGroup.Create(start, end);
      assert Frees() == frees;
      if g.base < g.limit {
        groups := groups + [g];
        freecount := freecount + (g.limit - g.base) / PAGE_SIZE;
        TotalAppend(frees, g.free);
        assert Frees() == frees + [g.free];
        assert Separate();
      }
    }

    /** `page_alloc_n`: a request of up to 128 pages gets a block of the smallest order that holds it,
        which was not out, or nothing, exactly when everything is exhausted; a larger one panics, but from
        2^31 pages on it gets a single page.  Nothing else changes but by the first `rounds` reclaims. */
    method AllocPages(npages: nat, reclaims: seq<seq<Reclaimed>>)
      returns (r: Allocation, ghost order: nat, ghost j: nat, ghost i: nat, ghost rounds: nat)
      requires Valid() && npages < 0x1_0000_0000 && 0 < |reclaims| && Held(Flatten(reclaims))
      modifies this`freecount, groups
      ensures Valid() && rounds <= |reclaims|
      ensures r.Panic? <==> Pow2(TOP) < npages < 0x8000_0000
      ensures r.Panic? ==> freecount == old(freecount) && Outs() == old(Outs())
      ensures !r.Panic? ==> order <= TOP && OrderIs(npages, order) && (npages <= Pow2(order) <==> npages < 0x8000_0000)
      ensures !r.Panic? ==> (r.OutOfMemory? <==> Exhausted(Tops(), old(Outs()), reclaims, order))
      ensures r.OutOfMemory? ==>
                Outs() == OutsAfter(old(Outs()), reclaims, rounds)
                    && freecount == old(freecount) + PagesUpTo(reclaims, rounds)
      ensures r.Allocated? ==>
                && j < |groups| && r.addr == AddrOf(groups[j].base, order, i)
                && var outs := OutsAfter(old(Outs()), reclaims, rounds);
                   Block(order, i) !in outs[j] && Outs() == outs[j := outs[j] + {Block(order, i)}]
      ensures r.Allocated? ==> freecount + Pow2(order) == old(freecount) + PagesUpTo(reclaims, rounds)
    {
      hide PageSystem.Valid, AddrOf, Exhausted, OutsAfter, PageSystem.Held;
      assert Pow2(TOP) == 128;
      order, j, i, rounds := 0, 0, 0, 0;
      var o := OrderFor(npages);
      if o.None? {
        return Panic, 0, 0, 0, 0;
      }
      order := o.value;
      var addr, n;
      addr, j, i, n := AllocOrder(o.value, reclaims);
      rounds := n;
      r := if addr.Some? then Allocated(addr.value) else OutOfMemory;
    }

    /** `page_free_n`, given the same page count as the allocation. */
    method FreePages(start: nat, npages: nat, ghost order: nat, ghost j: nat, ghost i: nat)
      requires Valid() && j < |groups| && npages < 0x1_0000_0000 && order <= TOP && OrderIs(npages, order)
      requires Block(order, i) in groups[j].out && start == AddrOf(groups[j].base, order, i)
      modifies this`freecount, groups
      ensures Valid()
      ensures groups[j].out == old(groups[j].out) - {Block(order, i)}
      ensures forall a :: 0 <= a < |groups| && a != j ==> groups[a].out == old(groups[a].out)
      ensures freecount == old(freecount) + Pow2(order)
    {
      hide PageSystem.Valid, AddrOf;
      assert Pow2(TOP) == 128;
      Pow2Mono(order, TOP);
      var o := OrderFor(npages);
      OneOrder(npages, order, o.value);
      FreeOrder(start, o.value, j, i);
    }
  }

  function Flatten(reclaims: seq<seq<Reclaimed>>): seq<Reclaimed> {
    if reclaims == [] then [] else reclaims[0] + Flatten(reclaims[1..])
  }

  function FreedUpTo(reclaims: seq<seq<Reclaimed>>, n: nat, a: nat): set<Block>
    requires n <= |reclaims|
  {
    if n == 0 then {} else FreedUpTo(reclaims, n - 1, a) + FreedIn(reclaims[n - 1], a)
  }

  /** The pages of the blocks. */
  function PagesIn(rs: seq<Reclaimed>): nat {
    if rs == [] then 0 else Pow2(rs[0].order) + PagesIn(rs[1..])
  }

  function PagesUpTo(reclaims: seq<seq<Reclaimed>>, n: nat): nat
    requires n <= |reclaims|
  {
    if n == 0 then 0 else PagesUpTo(reclaims, n - 1) + PagesIn(reclaims[n - 1])
  }

  lemma FreedFirst(rs: seq<Reclaimed>, a: nat)
    requires rs != []
    ensures FreedIn(rs, a) == FreedIn(rs[1..], a)
              + (if rs[0].group == a then {Block(rs[0].order, rs[0].index)} else {})
  {
    assert rs == [rs[0]] + rs[1..];
  }

  function Key(r: Reclaimed): (nat, Block) {
    (r.group, Block(r.order, r.index))
  }

  function FreedIn(rs: seq<Reclaimed>, a: nat): set<Block> {
    set r | r in rs && r.group == a :: Block(r.order, r.index)
  }
}
