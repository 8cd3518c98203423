/** The slab allocator (kernel/mm/slab.c): slabs of equal objects, the free ones chained through
    their own control words, which point back to the slab while the object is in use.

    Both compile-time checks of the kernel are on: the flag in the control word and the red zones,
    of which the model keeps the space.  The page allocator's answers are parameters. */
module Slabs {
  import opened Lists
  import opened PageSizes
  import opened SlabLayout

  /** The control word of an object: the next free object or the slab, and whether it is free. */
  datatype Ctl = Ctl(ptr: nat, isFree: bool)

  /** The slab structure; its link is the order of the allocator's list. */
  datatype Slab = Slab(inuse: int, free: nat, addr: nat)

  datatype Shape = Shape(objsize: nat, order: nat, nobjs: nat)

  ghost predicate ShapeOk(sh: Shape) {
    sh.nobjs >= 1 && SlabSize(sh.objsize, sh.nobjs) <= Size(sh.order)
  }

  function At(sh: Shape, addr: nat, i: nat): nat {
    Obj(addr, sh.objsize, i)
  }

  /** The slab structure comes after the last object. */
  function HeaderAt(sh: Shape, addr: nat): nat {
    At(sh, addr, sh.nobjs)
  }

  ghost predicate IsObj(sh: Shape, addr: nat, o: nat) {
    exists i :: 0 <= i < sh.nobjs && o == At(sh, addr, i)
  }

  /** The free objects from `head` on. */
  ghost predicate FreeChain(ctl: map<nat, Ctl>, head: nat, fl: seq<nat>)
    decreases |fl|
  {
    if head == 0 then fl == []
    else fl != [] && fl[0] == head && head in ctl && ctl[head].isFree && FreeChain(ctl, ctl[head].ptr, fl[1..])
  }

  /** The free chain and the objects in use make up the slab at `s`, whose count is that of the
      latter. */
  ghost predicate SlabOk(sh: Shape, ctl: map<nat, Ctl>, sl: Slab, s: nat, fl: seq<nat>) {
    && sl.addr > 0 && s == HeaderAt(sh, sl.addr)
    && NoDup(fl) && FreeChain(ctl, sl.free, fl) && sl.inuse == sh.nobjs - |fl|
    && (forall o :: o in fl ==> IsObj(sh, sl.addr, o))
    && (forall i :: 0 <= i < sh.nobjs ==> Tracked(ctl, At(sh, sl.addr, i), s, fl))
  }

  ghost predicate Tracked(ctl: map<nat, Ctl>, o: nat, s: nat, fl: seq<nat>) {
    o in ctl && (o !in fl ==> ctl[o] == Ctl(s, false))
  }

  lemma {:induction false} ChainFrame(ctl: map<nat, Ctl>, head: nat, fl: seq<nat>, o: nat, c: Ctl)
    requires FreeChain(ctl, head, fl) && o !in fl
    ensures FreeChain(ctl[o := c], head, fl)
    decreases |fl|
  {
    if head != 0 { ChainFrame(ctl, ctl[head].ptr, fl[1..], o, c); }
  }

  /** Taking the first free object. */
  lemma TakeOk(sh: Shape, ctl: map<nat, Ctl>, sl: Slab, s: nat, fl: seq<nat>)
    requires SlabOk(sh, ctl, sl, s, fl) && sl.inuse < sh.nobjs
    ensures fl != [] && sl.free == fl[0] && sl.free in ctl && IsObj(sh, sl.addr, sl.free)
    ensures SlabOk(sh, ctl[sl.free := Ctl(s, false)], sl.(inuse := sl.inuse + 1, free := ctl[sl.free].ptr), s, fl[1..])
  {
    hide At, HeaderAt;
    var o := sl.free;
    assert fl[0] in fl && fl == [fl[0]] + fl[1..] && o !in fl[1..];
    ChainFrame(ctl, ctl[o].ptr, fl[1..], o, Ctl(s, false));
    var ctl' := ctl[o := Ctl(s, false)];
    forall i | 0 <= i < sh.nobjs
      ensures Tracked(ctl', At(sh, sl.addr, i), s, fl[1..])
    {
      assert Tracked(ctl, At(sh, sl.addr, i), s, fl);
    }
  }

  /** Giving back an object in use. */
  lemma GiveOk(sh: Shape, ctl: map<nat, Ctl>, sl: Slab, s: nat, fl: seq<nat>, o: nat)
    requires SlabOk(sh, ctl, sl, s, fl) && IsObj(sh, sl.addr, o) && o !in fl && o > 0
    ensures o in ctl && ctl[o] == Ctl(s, false)
    ensures SlabOk(sh, ctl[o := Ctl(sl.free, true)], sl.(inuse := sl.inuse - 1, free := o), s, [o] + fl)
  {
    hide At, HeaderAt;
    var k :| 0 <= k < sh.nobjs && o == At(sh, sl.addr, k);
    assert Tracked(ctl, At(sh, sl.addr, k), s, fl);
    NoDupCons(fl, o);
    var ctl' := ctl[o := Ctl(sl.free, true)];
    ChainFrame(ctl, sl.free, fl, o, Ctl(sl.free, true));
    assert ([o] + fl)[1..] == fl;
    assert FreeChain(ctl', o, [o] + fl);
    forall i | 0 <= i < sh.nobjs
      ensures Tracked(ctl', At(sh, sl.addr, i), s, [o] + fl)
    {
      assert Tracked(ctl, At(sh, sl.addr, i), s, fl);
    }
  }

  /** Control words of other slabs do not matter. */
  lemma OtherOk(sh: Shape, ctl: map<nat, Ctl>, sl: Slab, s: nat, fl: seq<nat>, o: nat, c: Ctl)
    requires SlabOk(sh, ctl, sl, s, fl) && !IsObj(sh, sl.addr, o)
    ensures SlabOk(sh, ctl[o := c], sl, s, fl)
  {
    hide At, HeaderAt;
    ChainFrame(ctl, sl.free, fl, o, c);
    forall i | 0 <= i < sh.nobjs
      ensures Tracked(ctl[o := c], At(sh, sl.addr, i), s, fl)
    {
      assert Tracked(ctl, At(sh, sl.addr, i), s, fl);
    }
  }

  ghost predicate BlocksApart(sh: Shape, a: nat, b: nat) {
    a + Size(sh.order) <= b || b + Size(sh.order) <= a
  }

  lemma ObjInBlock(sh: Shape, addr: nat, o: nat)
    requires ShapeOk(sh) && IsObj(sh, addr, o)
    ensures addr <= o && o + sh.objsize + BUFCTL <= HeaderAt(sh, addr)
            && HeaderAt(sh, addr) + HEADER <= addr + Size(sh.order)
  {
    hide Size;
    var i :| 0 <= i < sh.nobjs && o == At(sh, addr, i);
    Inside(addr, sh.objsize, sh.nobjs, sh.order, i);
  }

  lemma ApartObjs(sh: Shape, a: nat, b: nat, o: nat)
    requires ShapeOk(sh) && BlocksApart(sh, a, b) && IsObj(sh, a, o)
    ensures !IsObj(sh, b, o) && HeaderAt(sh, a) != HeaderAt(sh, b)
  {
    hide Size, HeaderAt, IsObj;
    ObjInBlock(sh, a, o);
    if IsObj(sh, b, o) { ObjInBlock(sh, b, o); }
    assert IsObj(sh, a, At(sh, a, 0)) && IsObj(sh, b, At(sh, b, 0)) by { FirstObj(sh, a); FirstObj(sh, b); }
    ObjInBlock(sh, b, At(sh, b, 0));
  }

  lemma FirstObj(sh: Shape, a: nat)
    requires sh.nobjs >= 1
    ensures IsObj(sh, a, At(sh, a, 0)) && At(sh, a, 0) == a
  {
  }

  // ----- counting -----

  /** The numbers of the objects that are not in the free list. */
  ghost function InUse(sh: Shape, addr: nat, fl: seq<nat>): set<nat> {
    set i: nat | i < sh.nobjs && At(sh, addr, i) !in fl
  }

  ghost function Below(n: nat): (r: set<nat>)
    ensures |r| == n && forall i :: i in r <==> 0 <= i < n
  {
    if n == 0 then {} else Below(n - 1) + {n - 1}
  }

  lemma {:induction false} InUseCount(sh: Shape, addr: nat, fl: seq<nat>)
    requires NoDup(fl) && forall o :: o in fl ==> IsObj(sh, addr, o)
    ensures |InUse(sh, addr, fl)| == sh.nobjs - |fl|
  {
    hide At;
    if fl == [] {
      assert InUse(sh, addr, fl) == Below(sh.nobjs);
    } else {
      var o, rest := fl[0], fl[1..];
      assert o in fl && o !in rest && fl == [o] + rest;
      InUseCount(sh, addr, rest);
      var k :| 0 <= k < sh.nobjs && o == At(sh, addr, k);
      forall i | 0 <= i < sh.nobjs && i != k
        ensures At(sh, addr, i) != o
      {
        if i < k { Ordered(sh, addr, i, k); } else { Ordered(sh, addr, k, i); }
      }
      assert InUse(sh, addr, fl) == InUse(sh, addr, rest) - {k};
    }
  }

  /** The count in the slab structure is that of its objects in use. */
  lemma InUseCounted(sh: Shape, ctl: map<nat, Ctl>, sl: Slab, s: nat, fl: seq<nat>)
    requires SlabOk(sh, ctl, sl, s, fl)
    ensures |InUse(sh, sl.addr, fl)| == sl.inuse
  {
    InUseCount(sh, sl.addr, fl);
  }

  lemma AllFree(sh: Shape, ctl: map<nat, Ctl>, sl: Slab, s: nat, fl: seq<nat>, o: nat)
    requires SlabOk(sh, ctl, sl, s, fl) && sl.inuse == 0 && IsObj(sh, sl.addr, o)
    ensures o in fl
  {
    InUseCounted(sh, ctl, sl, s, fl);
    var i :| 0 <= i < sh.nobjs && o == At(sh, sl.addr, i);
    assert i !in InUse(sh, sl.addr, fl);
  }

  // ----- all slabs of an allocator -----

  ghost predicate AllOk(sh: Shape, list: seq<nat>, slab: map<nat, Slab>, ctl: map<nat, Ctl>, free: map<nat, seq<nat>>) {
    && ShapeOk(sh) && NoDup(list)
    && (forall s :: s in list ==> s in slab && s in free && SlabOk(sh, ctl, slab[s], s, free[s]))
    && (forall s, t :: s in list && t in list && s != t ==> BlocksApart(sh, slab[s].addr, slab[t].addr))
  }

  /** Object `o` of slab `s` is in use. */
  ghost predicate LiveIn(sh: Shape, list: seq<nat>, slab: map<nat, Slab>, free: map<nat, seq<nat>>, s: nat, o: nat) {
    s in list && s in slab && s in free && IsObj(sh, slab[s].addr, o) && o !in free[s]
  }

  ghost predicate Live(sh: Shape, list: seq<nat>, slab: map<nat, Slab>, free: map<nat, seq<nat>>, o: nat) {
    exists s :: LiveIn(sh, list, slab, free, s, o)
  }

  /** No object of slab `s` is in use. */
  ghost predicate Idle(sh: Shape, slab: map<nat, Slab>, free: map<nat, seq<nat>>, s: nat) {
    s in slab && s in free && forall o :: IsObj(sh, slab[s].addr, o) ==> o in free[s]
  }

  /** An object in use lies apart from every other object, in use or not, with its control word, and from
      every slab structure. */
  lemma LiveApart(sh: Shape, list: seq<nat>, slab: map<nat, Slab>, ctl: map<nat, Ctl>, free: map<nat, seq<nat>>,
                  o: nat, s: nat, p: nat)
    requires AllOk(sh, list, slab, ctl, free) && Live(sh, list, slab, free, o)
    requires s in list && s in slab && IsObj(sh, slab[s].addr, p)
    ensures o != p ==> o + sh.objsize + BUFCTL <= p || p + sh.objsize + BUFCTL <= o
    ensures o + sh.objsize + BUFCTL <= s || s + HEADER <= o
  {
    hide Size, SlabOk, HeaderAt, NoDup;
    var a :| LiveIn(sh, list, slab, free, a, o);
    ObjInBlock(sh, slab[a].addr, o);
    ObjInBlock(sh, slab[s].addr, p);
    HeaderInBlock(sh, slab, ctl, free, s);
    if a == s && o != p { SameSlab(sh, slab[a].addr, o, p); }
    HeaderInBlock(sh, slab, ctl, free, a);
  }

  lemma HeaderInBlock(sh: Shape, slab: map<nat, Slab>, ctl: map<nat, Ctl>, free: map<nat, seq<nat>>, s: nat)
    requires ShapeOk(sh) && s in slab && s in free && SlabOk(sh, ctl, slab[s], s, free[s])
    ensures s == HeaderAt(sh, slab[s].addr) && slab[s].addr <= s && s + HEADER <= slab[s].addr + Size(sh.order)
  {
    hide Size;
    Inside(slab[s].addr, sh.objsize, sh.nobjs, sh.order, 0);
  }

  lemma SameSlab(sh: Shape, addr: nat, o: nat, p: nat)
    requires IsObj(sh, addr, o) && IsObj(sh, addr, p) && o != p
    ensures o + sh.objsize + BUFCTL <= p || p + sh.objsize + BUFCTL <= o
  {
    var i :| 0 <= i < sh.nobjs && o == At(sh, addr, i);
    var j :| 0 <= j < sh.nobjs && p == At(sh, addr, j);
    if i < j { Disjoint(addr, sh.objsize, i, j); } else { Disjoint(addr, sh.objsize, j, i); }
  }

  lemma AllocKeeps(sh: Shape, list: seq<nat>, slab: map<nat, Slab>, ctl: map<nat, Ctl>, free: map<nat, seq<nat>>,
                   s: nat)
    requires AllOk(sh, list, slab, ctl, free) && s in list && slab[s].inuse < sh.nobjs
    ensures var o := slab[s].free;
            && o in ctl && o > 0 && free[s] != [] && o == free[s][0]
            && AllOk(sh, list, slab[s := slab[s].(inuse := slab[s].inuse + 1, free := ctl[o].ptr)],
                 ctl[o := Ctl(s, false)], free[s := free[s][1..]])
            && !Live(sh, list, slab, free, o) && LiveIn(sh, list, slab, free[s := free[s][1..]], s, o)
  {
    hide Size, HeaderAt, NoDup, IsObj, SlabOk, BlocksApart;
    var o := slab[s].free;
    TakeOk(sh, ctl, slab[s], s, free[s]);
    var slab', ctl', free' := slab[s := slab[s].(inuse := slab[s].inuse + 1, free := ctl[o].ptr)],
          ctl[o := Ctl(s, false)], free[s := free[s][1..]];
    TakenOnce(sh, ctl, slab[s], s, free[s]);
    forall t | t in list && t != s
      ensures SlabOk(sh, ctl', slab'[t], t, free'[t]) && !IsObj(sh, slab[t].addr, o)
    {
      assert BlocksApart(sh, slab[s].addr, slab[t].addr);
      ApartObjs(sh, slab[s].addr, slab[t].addr, o);
      OtherOk(sh, ctl, slab[t], t, free[t], o, Ctl(s, false));
    }
    ApartKept(sh, list, slab, slab');
  }

  lemma ApartKept(sh: Shape, list: seq<nat>, slab: map<nat, Slab>, slab': map<nat, Slab>)
    requires forall s :: s in list ==> s in slab && s in slab' && slab'[s].addr == slab[s].addr
    requires forall s, t :: s in list && t in list && s != t ==> BlocksApart(sh, slab[s].addr, slab[t].addr)
    ensures forall s, t :: s in list && t in list && s != t ==> BlocksApart(sh, slab'[s].addr, slab'[t].addr)
  {
    hide BlocksApart;
  }

  lemma TakenOnce(sh: Shape, ctl: map<nat, Ctl>, sl: Slab, s: nat, fl: seq<nat>)
    requires ShapeOk(sh) && SlabOk(sh, ctl, sl, s, fl) && fl != []
    ensures sl.free == fl[0] && fl[0] > 0 && fl[0] !in fl[1..] && fl[0] in fl
  {
    hide Size, HeaderAt;
    assert fl[0] in fl;
    ObjInBlock(sh, sl.addr, fl[0]);
  }

  lemma FreeKeeps(sh: Shape, list: seq<nat>, slab: map<nat, Slab>, ctl: map<nat, Ctl>, free: map<nat, seq<nat>>, s: nat,
                  o: nat)
    requires AllOk(sh, list, slab, ctl, free) && LiveIn(sh, list, slab, free, s, o)
    ensures o in ctl && ctl[o] == Ctl(s, false)
    ensures AllOk(sh, list, slab[s := slab[s].(inuse := slab[s].inuse - 1, free := o)],
              ctl[o := Ctl(slab[s].free, true)], free[s := [o] + free[s]])
    ensures forall t :: LiveIn(sh, list, slab, free, t, o) ==> t == s
  {
    hide Size, HeaderAt, NoDup, IsObj, BlocksApart;
    var slab', ctl', free' := slab[s := slab[s].(inuse := slab[s].inuse - 1, free := o)],
          ctl[o := Ctl(slab[s].free, true)], free[s := [o] + free[s]];
    ObjInBlock(sh, slab[s].addr, o);
    assert o > 0;
    GiveOk(sh, ctl, slab[s], s, free[s], o);
    hide SlabOk;
    forall t | t in list && t != s
      ensures SlabOk(sh, ctl', slab'[t], t, free'[t]) && !IsObj(sh, slab[t].addr, o)
    {
      assert BlocksApart(sh, slab[s].addr, slab[t].addr);
      ApartObjs(sh, slab[s].addr, slab[t].addr, o);
      OtherOk(sh, ctl, slab[t], t, free[t], o, Ctl(slab[s].free, true));
    }
    ApartKept(sh, list, slab, slab');
  }

  // ----- a new slab -----

  /** The objects of a slab from number `i` on. */
  ghost function ObjsFrom(sh: Shape, addr: nat, i: nat): (os: seq<nat>)
    requires i <= sh.nobjs
    ensures |os| == sh.nobjs - i
    ensures forall k :: 0 <= k < |os| ==> os[k] == At(sh, addr, i + k)
    decreases sh.nobjs - i
  {
    if i == sh.nobjs then [] else [At(sh, addr, i)] + ObjsFrom(sh, addr, i + 1)
  }

  /** The control words as a new slab has them. */
  ghost predicate Chained(sh: Shape, ctl: map<nat, Ctl>, addr: nat, n: nat) {
    forall i :: 0 <= i < n ==> Linked(sh, ctl, addr, i)
  }

  ghost predicate Linked(sh: Shape, ctl: map<nat, Ctl>, addr: nat, i: nat) {
    At(sh, addr, i) in ctl && ctl[At(sh, addr, i)] == Ctl(if i == sh.nobjs - 1 then 0 else At(sh, addr, i + 1), true)
  }

  lemma {:induction false} NewChain(sh: Shape, ctl: map<nat, Ctl>, addr: nat, i: nat)
    requires addr > 0 && i <= sh.nobjs && Chained(sh, ctl, addr, sh.nobjs)
    ensures FreeChain(ctl, if i == sh.nobjs then 0 else At(sh, addr, i), ObjsFrom(sh, addr, i))
    decreases sh.nobjs - i
  {
    if i < sh.nobjs {
      NewChain(sh, ctl, addr, i + 1);
      assert Linked(sh, ctl, addr, i);
      AtPositive(sh, addr, i);
      assert ObjsFrom(sh, addr, i)[1..] == ObjsFrom(sh, addr, i + 1);
    }
  }

  lemma AtPositive(sh: Shape, addr: nat, i: nat)
    ensures At(sh, addr, i) >= addr && At(sh, addr, 0) == addr
    ensures At(sh, addr, i + 1) == At(sh, addr, i) + sh.objsize + BUFCTL
  {
    assert (i + 1) * (sh.objsize + BUFCTL) == i * (sh.objsize + BUFCTL) + sh.objsize + BUFCTL;
  }

  lemma NewSlab(sh: Shape, ctl: map<nat, Ctl>, addr: nat)
    requires addr > 0 && ShapeOk(sh) && Chained(sh, ctl, addr, sh.nobjs)
    ensures SlabOk(sh, ctl, Slab(0, addr, addr), HeaderAt(sh, addr), ObjsFrom(sh, addr, 0))
  {
    hide Size, At, HeaderAt;
    var fl := ObjsFrom(sh, addr, 0);
    NewChain(sh, ctl, addr, 0);
    AtPositive(sh, addr, 0);
    forall i | 0 <= i < sh.nobjs
      ensures Tracked(ctl, At(sh, addr, i), HeaderAt(sh, addr), fl)
    {
      assert fl[i] == At(sh, addr, i) && Linked(sh, ctl, addr, i);
    }
    forall a, b | 0 <= a < b < |fl|
      ensures fl[a] != fl[b]
    {
      Ordered(sh, addr, a, b);
    }
    forall o | o in fl
      ensures IsObj(sh, addr, o)
    {
      var k :| 0 <= k < |fl| && fl[k] == o;
      assert o == At(sh, addr, k);
    }
  }

  lemma Ordered(sh: Shape, addr: nat, i: nat, j: nat)
    requires i < j
    ensures At(sh, addr, i) < At(sh, addr, j)
  {
    Disjoint(addr, sh.objsize, i, j);
  }

  /** Only control words of the new slab have changed. */
  ghost predicate OnlyNew(sh: Shape, ctl: map<nat, Ctl>, ctl': map<nat, Ctl>, addr: nat) {
    && (forall o :: o in ctl ==> o in ctl')
    && (forall o :: o in ctl && !IsObj(sh, addr, o) ==> ctl'[o] == ctl[o])
  }

  lemma {:induction false} ChainKept(ctl: map<nat, Ctl>, ctl': map<nat, Ctl>, head: nat, fl: seq<nat>)
    requires FreeChain(ctl, head, fl) && forall o :: o in fl && o in ctl ==> o in ctl' && ctl'[o] == ctl[o]
    ensures FreeChain(ctl', head, fl)
    decreases |fl|
  {
    if head != 0 {
      assert fl[0] in fl && forall o :: o in fl[1..] ==> o in fl;
      ChainKept(ctl, ctl', ctl[head].ptr, fl[1..]);
    }
  }

  lemma SlabKept(sh: Shape, ctl: map<nat, Ctl>, ctl': map<nat, Ctl>, sl: Slab, s: nat, fl: seq<nat>, addr: nat)
    requires ShapeOk(sh) && SlabOk(sh, ctl, sl, s, fl) && OnlyNew(sh, ctl, ctl', addr) && BlocksApart(sh, sl.addr, addr)
    ensures SlabOk(sh, ctl', sl, s, fl)
  {
    hide Size, At, HeaderAt, NoDup, BlocksApart;
    forall o | IsObj(sh, sl.addr, o)
      ensures !IsObj(sh, addr, o)
    {
      ApartObjs(sh, sl.addr, addr, o);
    }
    ChainKept(ctl, ctl', sl.free, fl);
    forall i | 0 <= i < sh.nobjs
      ensures Tracked(ctl', At(sh, sl.addr, i), s, fl)
    {
      assert Tracked(ctl, At(sh, sl.addr, i), s, fl) && IsObj(sh, sl.addr, At(sh, sl.addr, i));
    }
  }

  /** The page block at `addr` lies apart from those of the slabs. */
  ghost predicate Fresh(sh: Shape, list: seq<nat>, slab: map<nat, Slab>, addr: nat) {
    addr > 0 && forall s :: s in list ==> s in slab && BlocksApart(sh, slab[s].addr, addr)
  }

  lemma GrowKeeps(sh: Shape, list: seq<nat>, slab: map<nat, Slab>, ctl: map<nat, Ctl>, ctl': map<nat, Ctl>,
                  free: map<nat, seq<nat>>, addr: nat)
    requires AllOk(sh, list, slab, ctl, free) && Fresh(sh, list, slab, addr)
    requires Chained(sh, ctl', addr, sh.nobjs) && OnlyNew(sh, ctl, ctl', addr)
    ensures var s := HeaderAt(sh, addr);
            && s !in list
            && AllOk(sh, [s] + list, slab[s := Slab(0, addr, addr)], ctl', free[s := ObjsFrom(sh, addr, 0)])
            && Idle(sh, slab[s := Slab(0, addr, addr)], free[s := ObjsFrom(sh, addr, 0)], s)
  {
    hide Size, At, HeaderAt, NoDup, SlabOk, Chained, OnlyNew;
    var s := HeaderAt(sh, addr);
    NewSlab(sh, ctl', addr);
    forall t | t in list
      ensures t != s && SlabOk(sh, ctl', slab[t], t, free[t])
    {
      SlabKept(sh, ctl, ctl', slab[t], t, free[t], addr);
      HeaderInBlock(sh, slab, ctl, free, t);
      FirstObj(sh, addr);
      ApartObjs(sh, addr, slab[t].addr, At(sh, addr, 0));
    }
    assert s !in list;
    NoDupCons(list, s);
    NewIdle(sh, addr);
  }

  lemma NewIdle(sh: Shape, addr: nat)
    ensures forall o :: IsObj(sh, addr, o) ==> o in ObjsFrom(sh, addr, 0)
  {
    forall o | IsObj(sh, addr, o)
      ensures o in ObjsFrom(sh, addr, 0)
    {
      var i :| 0 <= i < sh.nobjs && o == At(sh, addr, i);
      assert ObjsFrom(sh, addr, 0)[i] == o;
    }
  }

  /** A slab without objects in use may go. */
  lemma DropKeeps(sh: Shape, list: seq<nat>, slab: map<nat, Slab>, ctl: map<nat, Ctl>, free: map<nat, seq<nat>>, s: nat)
    requires AllOk(sh, list, slab, ctl, free) && s in list && slab[s].inuse == 0
    ensures AllOk(sh, Without(list, s), slab, ctl, free)
    ensures Idle(sh, slab, free, s)
  {
    hide SlabOk, BlocksApart;
    WithoutMembers(list, s);
    forall o | IsObj(sh, slab[s].addr, o)
      ensures o in free[s]
    {
      AllFree(sh, ctl, slab[s], s, free[s], o);
    }
  }

  // ----- the allocator -----

  class SlabAllocator {
    const sh: Shape
    var list: seq<nat>
    var slab: map<nat, Slab>
    var ctl: map<nat, Ctl>
    ghost var free: map<nat, seq<nat>>

    ghost predicate Valid()
      reads this
    {
      AllOk(sh, list, slab, ctl, free)
    }

    /** `_allocator_init`, with the shape that `_calc_slab_size` found. */
    constructor (shape: Shape)
      requires ShapeOk(shape)
      ensures Valid() && sh == shape && list == []
    {
      sh := shape;
      list, slab, ctl := [], map[], map[];
      free := map[];
    }

    /** Address `o` is that of an object in use, its front red zone included. */
    ghost predicate InUseAt(o: nat)
      reads this
    {
      Live(sh, list, slab, free, o)
    }

    /** `_slab_allocator_grow`, given the page allocator's answer. */
    method Grow(page: Option<nat>) returns (grown: bool)
      requires Valid() && (page.Some? ==> Fresh(sh, list, slab, page.value))
      modifies this
      ensures Valid() && (grown <==> page.Some?)
      ensures !grown ==> unchanged(this)
      ensures grown ==>
                list == [HeaderAt(sh, page.value)] + old(list)
                    && slab == old(slab)[list[0] := Slab(0, page.value, page.value)]
      ensures forall o :: InUseAt(o) <==> old(InUseAt(o))
    {
      hide AllOk, Size, At;
      if page.None? {
        return false;
      }
      ghost var ctl0 := ctl;
      var addr := page.value;
      var obj := addr;
      ShapeOf(sh, list, slab, ctl, free);
      AtPositive(sh, addr, 0);
      var i := 0;
      while i < sh.nobjs - 1
        invariant 0 <= i <= sh.nobjs - 1 && obj == At(sh, addr, i)
        invariant Chained(sh, ctl, addr, i) && OnlyNew(sh, ctl0, ctl, addr)
        modifies this`ctl
      {
        LinkNext(sh, ctl0, ctl, addr, i, Ctl(At(sh, addr, i + 1), true));
        AtPositive(sh, addr, i);
        ctl := ctl[obj := Ctl(obj + sh.objsize + BUFCTL, true)];
        obj := obj + sh.objsize + BUFCTL;
        i := i + 1;
      }
      LinkNext(sh, ctl0, ctl, addr, i, Ctl(0, true));
      ctl := ctl[obj := Ctl(0, true)];
      AtPositive(sh, addr, i);
      var s := obj + sh.objsize + BUFCTL;
      GrowKeeps(sh, list, slab, ctl0, ctl, free, addr);
      slab := slab[s := Slab(0, addr, addr)];
      list := [s] + list;
      free := free[s := ObjsFrom(sh, addr, 0)];
      LiveMore(sh, old(list), old(slab), old(free), list, slab, free, s);
      return true;
    }

    /** `slab_obj_alloc`, given the page allocator's answer should it be asked: a new object, with its
        red zone skipped, or none exactly when every slab is full and there is no page. */
    method Alloc(page: Option<nat>) returns (r: Option<nat>)
      requires Valid() && (page.Some? ==> Fresh(sh, list, slab, page.value))
      modifies this
      ensures Valid()
      ensures r.None? <==> page.None? && forall s :: s in old(list) ==> s in old(slab) && old(slab)[s].inuse == sh.nobjs
      ensures r.None? ==> unchanged(this)
      ensures r.Some? ==>
                && r.value >= REDZONE && !old(InUseAt(r.value - REDZONE))
                && forall o :: InUseAt(o) <==> old(InUseAt(o)) || o == r.value - REDZONE
    {
      hide AllOk, Size, At, Live;
      var k := FindRoom();
      ghost var asked := false;
      while k == |list|
        invariant Valid() && 0 <= k <= |list| && (k < |list| ==> list[k] in slab && slab[list[k]].inuse < sh.nobjs)
        invariant !asked ==> unchanged(this)
        invariant !asked && k == |list| ==> forall s :: s in list ==> s in slab && slab[s].inuse == sh.nobjs
        invariant !asked && k < |list| ==> !forall s :: s in list ==> s in slab && slab[s].inuse == sh.nobjs
        invariant asked ==> page.Some? && k < |list|
        invariant forall o :: InUseAt(o) <==> old(InUseAt(o))
        decreases !asked
      {
        var grown := Grow(page);
        if !grown {
          return None;
        }
        asked := true;
        ShapeOf(sh, list, slab, ctl, free);
        k := FindRoom();
      }
      var s := list[k];
      ShapeOf(sh, list, slab, ctl, free);
      AllocKeeps(sh, list, slab, ctl, free, s);
      assert !InUseAt(slab[s].free);
      ghost var list1, slab1, free1 := list, slab, free;
      var obj := slab[s].free;
      slab := slab[s := slab[s].(free := ctl[obj].ptr)];
      ctl := ctl[obj := Ctl(s, false)];
      slab := slab[s := slab[s].(inuse := slab[s].inuse + 1)];
      free := free[s := free[s][1..]];
      assert slab == slab1[s := slab1[s].(inuse := slab1[s].inuse + 1, free := slab[s].free)];
      LiveTaken(sh, list, slab1, free1, slab, free, s, obj);
      return Some(obj + REDZONE);
    }

    /** The search along the list: the first slab that is not full. */
    method FindRoom() returns (k: nat)
      requires Valid()
      ensures k <= |list|
      ensures k == |list| ==> forall s :: s in list ==> s in slab && slab[s].inuse == sh.nobjs
      ensures k < |list| ==> list[k] in slab && slab[list[k]].inuse < sh.nobjs
      ensures list != [] && list[0] in slab && slab[list[0]].inuse < sh.nobjs ==> k == 0
    {
      k := 0;
      while k < |list| && slab[list[k]].inuse == sh.nobjs
        invariant 0 <= k <= |list|
        invariant forall j :: 0 <= j < k ==> list[j] in slab && slab[list[j]].inuse == sh.nobjs
      {
        k := k + 1;
      }
    }

    /** `slab_obj_free`: the object is no longer in use. */
    method Free(p: nat)
      requires Valid() && p >= REDZONE && InUseAt(p - REDZONE)
      modifies this
      ensures Valid() && list == old(list)
      ensures forall o :: InUseAt(o) <==> old(InUseAt(o)) && o != p - REDZONE
    {
      hide AllOk, Size, At;
      var obj := p - REDZONE;
      ghost var s0 :| LiveIn(sh, list, slab, free, s0, obj);
      FreeKeeps(sh, list, slab, ctl, free, s0, obj);
      assert !ctl[obj].isFree;
      ghost var slab1, free1 := slab, free;
      var s := ctl[obj].ptr;
      ctl := ctl[obj := Ctl(slab[s].free, true)];
      slab := slab[s := slab[s].(free := obj)];
      slab := slab[s := slab[s].(inuse := slab[s].inuse - 1)];
      free := free[s := [obj] + free[s]];
      assert slab == slab1[s := slab1[s].(inuse := slab1[s].inuse - 1, free := obj)];
      LiveGiven(sh, list, slab1, free1, slab, free, s, obj);
    }

    ghost predicate NoneIdle()
      reads this
    {
      forall s :: s in list ==> s in slab && slab[s].inuse != 0
    }

    /** The inner loop of `slab_allocators_reclaim`: the slabs without objects in use give their page
        blocks back, until the target is met. */
    method ReclaimHere(target: int, before: nat) returns (freed: nat, met: bool, released: seq<nat>)
      requires Valid()
      modifies this`list
      ensures Valid() && SameUse(sh, slab, free, old(list), list)
      ensures freed == before + |released| * NPages(sh) && |list| + |released| == |old(list)|
      ensures forall s :: s in list ==> s in old(list)
      ensures FromIdle(slab, old(list), list, released)
      ensures if met then target > 0 && freed >= target else NoneIdle()
    {
      hide AllOk, Size, Live, NPages, SameUse, FromIdle;
      freed, released := before, [];
      ghost var list0 := list;
      SameUseRefl(sh, slab, free, list);
      NoneReleased(slab, list);
      var i := 0;
      while i < |list|
        invariant 0 <= i <= |list| && Valid() && SameUse(sh, slab, free, list0, list)
        invariant freed == before + |released| * NPages(sh) && |list| + |released| == |list0|
        invariant FromIdle(slab, list0, list, released)
        invariant forall j :: 0 <= j < i ==> list[j] in slab && slab[list[j]].inuse != 0
        decreases |list| - i
        modifies this`list
      {
        var s := list[i];
        ShapeOf(sh, list, slab, ctl, free);
        ListOf(sh, list, slab, ctl, free);
        if slab[s].inuse == 0 {
          DropKeeps(sh, list, slab, ctl, free, s);
          SameUseFewer(sh, slab, free, list0, list, s);
          WithoutIndex(list, i);
          WithoutMembers(list, s);
          ReleasedOne(slab, list0, list, released, s);
          OneMore(|released|, NPages(sh));
          list := list[..i] + list[i + 1..];
          released := released + [slab[s].addr];
          freed := freed + NPages(sh);
        } else {
          i := i + 1;
        }
        if target > 0 && freed >= target {
          InOldList(slab, list0, list, released);
          return freed, true, released;
        }
      }
      InOldList(slab, list0, list, released);
      return freed, false, released;
    }
  }

  lemma OneMore(k: nat, n: nat)
    ensures (k + 1) * n == k * n + n
  {
  }

  /** The blocks given back are those of slabs that left the list without an object in use. */
  ghost predicate FromIdle(slab: map<nat, Slab>, was: seq<nat>, now: seq<nat>, released: seq<nat>) {
    && (forall s :: s in now ==> s in was)
    && forall a :: a in released ==> GoneFrom(slab, was, now, a)
  }

  ghost predicate GoneFrom(slab: map<nat, Slab>, was: seq<nat>, now: seq<nat>, a: nat) {
    exists s :: s in was && s !in now && s in slab && slab[s].inuse == 0 && slab[s].addr == a
  }

  lemma NoneReleased(slab: map<nat, Slab>, list: seq<nat>)
    ensures FromIdle(slab, list, list, [])
  {
  }

  lemma InOldList(slab: map<nat, Slab>, was: seq<nat>, now: seq<nat>, released: seq<nat>)
    requires FromIdle(slab, was, now, released)
    ensures forall s :: s in now ==> s in was
  {
  }

  lemma ReleasedOne(slab: map<nat, Slab>, was: seq<nat>, now: seq<nat>, released: seq<nat>, s: nat)
    requires FromIdle(slab, was, now, released) && NoDup(now) && s in now && s in slab && slab[s].inuse == 0
    ensures FromIdle(slab, was, Without(now, s), released + [slab[s].addr])
  {
    hide GoneFrom;
    WithoutMembers(now, s);
    forall a | a in released + [slab[s].addr]
      ensures GoneFrom(slab, was, Without(now, s), a)
    {
      if a in released { StillGone(slab, was, now, s, a); } else { GoneNow(slab, was, now, s); }
    }
  }

  lemma StillGone(slab: map<nat, Slab>, was: seq<nat>, now: seq<nat>, s: nat, a: nat)
    requires NoDup(now) && s in now && GoneFrom(slab, was, now, a)
    ensures GoneFrom(slab, was, Without(now, s), a)
  {
    WithoutMembers(now, s);
  }

  lemma GoneNow(slab: map<nat, Slab>, was: seq<nat>, now: seq<nat>, s: nat)
    requires NoDup(now) && s in now && s in was && s in slab && slab[s].inuse == 0
    ensures GoneFrom(slab, was, Without(now, s), slab[s].addr)
  {
    WithoutMembers(now, s);
  }

  lemma SameUseFewer(sh: Shape, slab: map<nat, Slab>, free: map<nat, seq<nat>>, was: seq<nat>, list: seq<nat>, s: nat)
    requires SameUse(sh, slab, free, was, list) && NoDup(list) && s in list && Idle(sh, slab, free, s)
    ensures SameUse(sh, slab, free, was, Without(list, s))
  {
    hide Live;
    LiveFewer(sh, list, slab, free, s);
  }

  /** The same objects are in use whichever of the two lists of slabs is taken. */
  ghost predicate SameUse(sh: Shape, slab: map<nat, Slab>, free: map<nat, seq<nat>>, was: seq<nat>, now: seq<nat>) {
    forall o :: Live(sh, now, slab, free, o) <==> Live(sh, was, slab, free, o)
  }

  lemma SameUseRefl(sh: Shape, slab: map<nat, Slab>, free: map<nat, seq<nat>>, list: seq<nat>)
    ensures SameUse(sh, slab, free, list, list)
  {
  }

  lemma LiveFewer(sh: Shape, list: seq<nat>, slab: map<nat, Slab>, free: map<nat, seq<nat>>, s: nat)
    requires NoDup(list) && s in list && Idle(sh, slab, free, s)
    ensures forall o :: Live(sh, Without(list, s), slab, free, o) <==> Live(sh, list, slab, free, o)
  {
    WithoutMembers(list, s);
    forall o
      ensures Live(sh, Without(list, s), slab, free, o) <==> Live(sh, list, slab, free, o)
    {
      if Live(sh, Without(list, s), slab, free, o) {
        var t :| LiveIn(sh, Without(list, s), slab, free, t, o);
        assert LiveIn(sh, list, slab, free, t, o);
      }
      if Live(sh, list, slab, free, o) {
        var t :| LiveIn(sh, list, slab, free, t, o);
        assert LiveIn(sh, Without(list, s), slab, free, t, o);
      }
    }
  }

  lemma {:induction false} WithoutIndex(list: seq<nat>, i: nat)
    requires NoDup(list) && i < |list|
    ensures Without(list, list[i]) == list[..i] + list[i + 1..]
  {
    if i > 0 {
      WithoutIndex(list[1..], i - 1);
      assert list[1..][i - 1] == list[i] && list[0] != list[i];
      assert [list[0]] + (list[1..][..i - 1] + list[1..][i..]) == list[..i] + list[i + 1..];
    }
  }

  function NPages(sh: Shape): nat {
    Size(sh.order) / PAGE_SIZE
  }

  /** The pages of so many slabs of each allocator. */
  ghost function PagesOf(caches: seq<SlabAllocator>, slabs: seq<nat>): nat
    requires |slabs| <= |caches|
  {
    if slabs == [] then 0
    else PagesOf(caches, slabs[..|slabs| - 1]) + slabs[|slabs| - 1] * NPages(caches[|slabs| - 1].sh)
  }

  /** `slab_allocators_reclaim` over all allocators: no object in use is touched, the count is that of
      the pages given back, and unless the target stopped it no slab without one is left. */
  method Reclaim(caches: seq<SlabAllocator>, target: int) returns (freed: nat, ghost given: seq<nat>)
    requires NoDup(caches) && forall c :: c in caches ==> c.Valid()
    modifies caches
    ensures |given| <= |caches| && freed == PagesOf(caches, given)
    ensures forall j :: 0 <= j < |caches| ==>
              ReclaimedFrom(caches[j], old(caches[j].list), old(caches[j].slab), old(caches[j].free),
                                                            if j < |given| then given[j] else 0)
    ensures target <= 0 || freed < target ==> forall j :: 0 <= j < |caches| ==> caches[j].NoneIdle()
  {
    hide NPages, SlabAllocator.Valid, SlabAllocator.NoneIdle, SameUse;
    freed, given := 0, [];
    forall j | 0 <= j < |caches|
      ensures ReclaimedFrom(caches[j], caches[j].list, caches[j].slab, caches[j].free, 0)
    {
      SameUseRefl(caches[j].sh, caches[j].slab, caches[j].free, caches[j].list);
    }
    var i := 0;
    while i < |caches|
      invariant 0 <= i <= |caches| && |given| == i && freed == PagesOf(caches, given)
      invariant forall j :: 0 <= j < |caches| ==>
                  ReclaimedFrom(caches[j], old(caches[j].list), old(caches[j].slab), old(caches[j].free),
                                                                if j < |given| then given[j] else 0)
      invariant forall j :: i <= j < |caches| ==> caches[j].list == old(caches[j].list)
      invariant forall j :: 0 <= j < i ==> caches[j].NoneIdle()
    {
      var met, released;
      freed, met, released := caches[i].ReclaimHere(target, freed);
      assert (given + [|released|])[..i] == given;
      given := given + [|released|];
      if met {
        return;
      }
      i := i + 1;
    }
  }

  /** An allocator that has given back so many slabs, none with an object in use. */
  ghost predicate ReclaimedFrom(c: SlabAllocator, list: seq<nat>, slab: map<nat, Slab>, free: map<nat, seq<nat>>,
                                given: nat)
    reads c
  {
    && c.Valid() && c.slab == slab && c.free == free && SameUse(c.sh, slab, free, list, c.list)
    && |c.list| + given == |list|
  }

  lemma ShapeOf(sh: Shape, list: seq<nat>, slab: map<nat, Slab>, ctl: map<nat, Ctl>, free: map<nat, seq<nat>>)
    requires AllOk(sh, list, slab, ctl, free)
    ensures ShapeOk(sh) && forall s :: s in list ==> s in slab && s in free
  {
  }

  lemma ListOf(sh: Shape, list: seq<nat>, slab: map<nat, Slab>, ctl: map<nat, Ctl>, free: map<nat, seq<nat>>)
    requires AllOk(sh, list, slab, ctl, free)
    ensures NoDup(list)
  {
  }

  lemma LinkNext(sh: Shape, ctl0: map<nat, Ctl>, ctl: map<nat, Ctl>, addr: nat, i: nat, c: Ctl)
    requires i < sh.nobjs && Chained(sh, ctl, addr, i) && OnlyNew(sh, ctl0, ctl, addr)
    requires c == Ctl(if i == sh.nobjs - 1 then 0 else At(sh, addr, i + 1), true)
    ensures var ctl' := ctl[At(sh, addr, i) := c];
            Chained(sh, ctl', addr, i + 1) && OnlyNew(sh, ctl0, ctl', addr)
  {
    hide At;
    var ctl' := ctl[At(sh, addr, i) := c];
    forall j | 0 <= j < i + 1
      ensures Linked(sh, ctl', addr, j)
    {
      if j < i {
        assert Linked(sh, ctl, addr, j);
        Ordered(sh, addr, j, i);
      }
    }
    assert IsObj(sh, addr, At(sh, addr, i));
  }

  lemma LiveMore(sh: Shape, list: seq<nat>, slab: map<nat, Slab>, free: map<nat, seq<nat>>,
                 list': seq<nat>, slab': map<nat, Slab>, free': map<nat, seq<nat>>, s: nat)
    requires s !in list && list' == [s] + list && Idle(sh, slab', free', s)
    requires forall t :: t in list ==>
               t in slab && t in slab' && t in free && t in free' && slab'[t] == slab[t] && free'[t] == free[t]
    ensures forall o :: Live(sh, list', slab', free', o) <==> Live(sh, list, slab, free, o)
  {
    forall o
      ensures Live(sh, list', slab', free', o) <==> Live(sh, list, slab, free, o)
    {
      if Live(sh, list', slab', free', o) {
        var t :| LiveIn(sh, list', slab', free', t, o);
        assert LiveIn(sh, list, slab, free, t, o);
      }
      if Live(sh, list, slab, free, o) {
        var t :| LiveIn(sh, list, slab, free, t, o);
        assert LiveIn(sh, list', slab', free', t, o);
      }
    }
  }

  lemma LiveTaken(sh: Shape, list: seq<nat>, slab: map<nat, Slab>, free: map<nat, seq<nat>>,
                  slab': map<nat, Slab>, free': map<nat, seq<nat>>, s: nat, obj: nat)
    requires s in list && s in slab && s in free && free[s] != [] && free[s][0] == obj
    requires s in slab' && slab' == slab[s := slab'[s]] && slab'[s].addr == slab[s].addr
             && free' == free[s := free[s][1..]]
    requires LiveIn(sh, list, slab, free', s, obj)
    ensures forall o :: Live(sh, list, slab', free', o) <==> Live(sh, list, slab, free, o) || o == obj
  {
    assert free[s] == [obj] + free[s][1..];
    assert LiveIn(sh, list, slab', free', s, obj);
    forall o
      ensures Live(sh, list, slab', free', o) <==> Live(sh, list, slab, free, o) || o == obj
    {
      if Live(sh, list, slab', free', o) && o != obj {
        var t :| LiveIn(sh, list, slab', free', t, o);
        assert LiveIn(sh, list, slab, free, t, o);
      }
      if Live(sh, list, slab, free, o) {
        var t :| LiveIn(sh, list, slab, free, t, o);
        assert LiveIn(sh, list, slab', free', t, o);
      }
    }
  }

  lemma LiveGiven(sh: Shape, list: seq<nat>, slab: map<nat, Slab>, free: map<nat, seq<nat>>,
                  slab': map<nat, Slab>, free': map<nat, seq<nat>>, s: nat, obj: nat)
    requires s in list && s in slab && s in free && s in slab' && slab' == slab[s := slab'[s]]
             && slab'[s].addr == slab[s].addr
    requires free' == free[s := [obj] + free[s]] && forall t :: LiveIn(sh, list, slab, free, t, obj) ==> t == s
    ensures forall o :: Live(sh, list, slab', free', o) <==> Live(sh, list, slab, free, o) && o != obj
  {
    forall o
      ensures Live(sh, list, slab', free', o) <==> Live(sh, list, slab, free, o) && o != obj
    {
      if Live(sh, list, slab', free', o) {
        var t :| LiveIn(sh, list, slab', free', t, o);
        assert LiveIn(sh, list, slab, free, t, o);
      }
      if Live(sh, list, slab, free, o) && o != obj {
        var t :| LiveIn(sh, list, slab, free, t, o);
        assert LiveIn(sh, list, slab', free', t, o);
      }
    }
  }
}
