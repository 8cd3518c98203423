/** Page frames and memory objects: the hash table of resident pages, the lists and reference counts,
    and moving a page from one object to another (kernel/mm/pframe.c, kernel/include/mm/mmobj.h).

    Objects and frames are named by their addresses.  `put` follows the contract in mmobj.h and in
    the comment of shadow_put: the object goes when its references are down to its resident
    pages. */
module PageFrames {
  import opened Lists
  import opened ShadowChains

  const PF_HASH_SIZE: nat := 17

  datatype MObj = MObj(refcount: int, nrespages: int, respages: seq<nat>, shadowed: Option<nat>)

  datatype PFrame = PFrame(obj: nat, pagenum: nat, pincount: nat, dirty: bool, busy: bool)

  /** hash_page: 32-bit addition of the object's address and the page number, modulo the buckets. */
  function HashPage(obj: nat, pagenum: nat): (h: nat)
    ensures h < PF_HASH_SIZE
  {
    ((obj + pagenum) % 0x1_0000_0000) % PF_HASH_SIZE
  }

  /** The frames are exactly the pages of the objects in `c`. */
  ghost predicate FramesShow(frames: map<nat, PFrame>, c: Chains) {
    && (forall f :: f in frames ==> ShownAt(c, f, frames[f].obj, frames[f].pagenum))
    && (forall o, n :: o in c && n in c[o].pages ==>
          c[o].pages[n] in frames && frames[c[o].pages[n]].obj == o && frames[c[o].pages[n]].pagenum == n)
  }

  ghost predicate ShownAt(c: Chains, f: nat, o: nat, n: nat) {
    o in c && n in c[o].pages && c[o].pages[n] == f
  }

  /** Each object lists its own frames, counts them, and has the links of `c`. */
  ghost predicate ObjectsShow(objs: map<nat, MObj>, frames: map<nat, PFrame>, c: Chains) {
    && objs.Keys == c.Keys
    && forall o :: o in objs ==>
         && objs[o].shadowed == c[o].shadowed
         && NoDup(objs[o].respages) && objs[o].nrespages == |objs[o].respages|
         && forall f :: f in objs[o].respages <==> f in frames && frames[f].obj == o
  }

  /** Each hash chain holds exactly the frames whose identity hashes to it. */
  ghost predicate HashShows(hash: seq<seq<nat>>, frames: map<nat, PFrame>) {
    && |hash| == PF_HASH_SIZE
    && forall h :: 0 <= h < PF_HASH_SIZE ==>
         && NoDup(hash[h])
         && forall f :: f in hash[h] <==> f in frames && HashPage(frames[f].obj, frames[f].pagenum) == h
  }

  /** Unpinned frames are on the allocated list, pinned ones on the pinned list. */
  ghost predicate ListsShow(alloc: seq<nat>, pinned: seq<nat>, frames: map<nat, PFrame>) {
    && NoDup(alloc) && NoDup(pinned)
    && (forall f :: f in alloc <==> f in frames && frames[f].pincount == 0)
    && (forall f :: f in pinned <==> f in frames && frames[f].pincount > 0)
  }

  // ----- taking a frame out of, and putting one into, the structures -----

  /** Object `o` without, or with, a page. */
  ghost function Unshown(c: Chains, o: nat, n: nat): Chains
    requires o in c
  {
    c[o := c[o].(pages := c[o].pages - {n})]
  }

  ghost function Shown(c: Chains, o: nat, n: nat, f: nat): Chains
    requires o in c
  {
    c[o := c[o].(pages := c[o].pages[n := f])]
  }

  lemma FramesRemove(frames: map<nat, PFrame>, c: Chains, f: nat)
    requires FramesShow(frames, c) && f in frames
    ensures frames[f].obj in c && FramesShow(frames - {f}, Unshown(c, frames[f].obj, frames[f].pagenum))
  {
    var o, n := frames[f].obj, frames[f].pagenum;
    assert ShownAt(c, f, o, n);
    var c', frames' := Unshown(c, o, n), frames - {f};
    forall g | g in frames'
      ensures ShownAt(c', g, frames'[g].obj, frames'[g].pagenum)
    {
      assert ShownAt(c, g, frames[g].obj, frames[g].pagenum);
    }
  }

  lemma FramesAdd(frames: map<nat, PFrame>, c: Chains, f: nat, fr: PFrame)
    requires FramesShow(frames, c) && f !in frames && fr.obj in c && fr.pagenum !in c[fr.obj].pages
    ensures FramesShow(frames[f := fr], Shown(c, fr.obj, fr.pagenum, f))
  {
    var c', frames' := Shown(c, fr.obj, fr.pagenum, f), frames[f := fr];
    forall g | g in frames'
      ensures ShownAt(c', g, frames'[g].obj, frames'[g].pagenum)
    {
      if g != f { assert ShownAt(c, g, frames[g].obj, frames[g].pagenum); }
    }
  }

  function Unlisted(m: MObj, f: nat): MObj {
    m.(respages := Without(m.respages, f), nrespages := m.nrespages - 1)
  }

  function Listed(m: MObj, f: nat): MObj {
    m.(respages := [f] + m.respages, nrespages := m.nrespages + 1)
  }

  /** Unlisting a frame from its object; the reference count is the caller's business. */
  lemma ObjectsRemove(objs: map<nat, MObj>, frames: map<nat, PFrame>, c: Chains, f: nat, rc: int)
    requires ObjectsShow(objs, frames, c) && f in frames && frames[f].obj in objs
    ensures var o := frames[f].obj;
            ObjectsShow(objs[o := Unlisted(objs[o], f).(refcount := rc)], frames - {f},
                  Unshown(c, o, frames[f].pagenum))
  {
    var o := frames[f].obj;
    WithoutMembers(objs[o].respages, f);
  }

  lemma ObjectsAdd(objs: map<nat, MObj>, frames: map<nat, PFrame>, c: Chains, f: nat, fr: PFrame, rc: int)
    requires ObjectsShow(objs, frames, c) && f !in frames && fr.obj in objs
    ensures var o := fr.obj;
            ObjectsShow(objs[o := Listed(objs[o], f).(refcount := rc)], frames[f := fr], Shown(c, o, fr.pagenum, f))
  {
    var o := fr.obj;
    assert f !in objs[o].respages;
    NoDupCons(objs[o].respages, f);
  }

  lemma HashRemove(hash: seq<seq<nat>>, frames: map<nat, PFrame>, f: nat)
    requires HashShows(hash, frames) && f in frames
    ensures var h := HashPage(frames[f].obj, frames[f].pagenum);
            HashShows(hash[h := Without(hash[h], f)], frames - {f})
  {
    hide HashPage;
    WithoutMembers(hash[HashPage(frames[f].obj, frames[f].pagenum)], f);
  }

  lemma HashAdd(hash: seq<seq<nat>>, frames: map<nat, PFrame>, f: nat, fr: PFrame)
    requires HashShows(hash, frames) && f !in frames
    ensures var h := HashPage(fr.obj, fr.pagenum);
            HashShows(hash[h := [f] + hash[h]], frames[f := fr])
  {
    hide HashPage;
    var h := HashPage(fr.obj, fr.pagenum);
    assert f !in hash[h];
    NoDupCons(hash[h], f);
  }

  /** What `hide`-ing the predicates below still leaves known. */
  lemma SameObjects(objs: map<nat, MObj>, frames: map<nat, PFrame>, hash: seq<seq<nat>>, c: Chains)
    requires FramesShow(frames, c) && ObjectsShow(objs, frames, c) && HashShows(hash, frames)
    ensures objs.Keys == c.Keys && |hash| == PF_HASH_SIZE
    ensures forall o :: o in objs ==> objs[o].shadowed == c[o].shadowed
    ensures forall f :: f in frames ==> frames[f].obj in objs && ShownAt(c, f, frames[f].obj, frames[f].pagenum)
  {
    hide HashPage;
    forall f | f in frames
      ensures frames[f].obj in objs && ShownAt(c, f, frames[f].obj, frames[f].pagenum)
    {
    }
  }

  lemma ListsRemove(alloc: seq<nat>, pinned: seq<nat>, frames: map<nat, PFrame>, f: nat)
    requires ListsShow(alloc, pinned, frames) && f in frames && frames[f].pincount == 0
    ensures ListsShow(Without(alloc, f), pinned, frames - {f})
  {
    WithoutMembers(alloc, f);
  }

  lemma ListsAdd(alloc: seq<nat>, pinned: seq<nat>, frames: map<nat, PFrame>, f: nat, fr: PFrame)
    requires ListsShow(alloc, pinned, frames) && f !in frames && fr.pincount == 0
    ensures ListsShow(alloc + [f], pinned, frames[f := fr])
  {
    NoDupCons(alloc, f);
  }

  lemma ListsUnpin(alloc: seq<nat>, pinned: seq<nat>, frames: map<nat, PFrame>, f: nat)
    requires ListsShow(alloc, pinned, frames) && f in frames && frames[f].pincount > 0
    ensures var frames' := frames[f := frames[f].(pincount := frames[f].pincount - 1)];
            if frames[f].pincount == 1 then ListsShow(alloc + [f], Without(pinned, f), frames')
            else ListsShow(alloc, pinned, frames')
  {
    WithoutMembers(pinned, f);
    NoDupCons(alloc, f);
  }

  lemma ListsPin(alloc: seq<nat>, pinned: seq<nat>, frames: map<nat, PFrame>, f: nat)
    requires ListsShow(alloc, pinned, frames) && f in frames
    ensures var frames' := frames[f := frames[f].(pincount := frames[f].pincount + 1)];
            if frames[f].pincount == 0 then ListsShow(Without(alloc, f), pinned + [f], frames')
            else ListsShow(alloc, pinned, frames')
  {
    if frames[f].pincount == 0 {
      WithoutMembers(alloc, f);
      NoDupCons(pinned, f);
    }
  }

  /** Nothing but the pin lists depends on the pin counts, and nothing at all on the dirty bits. */
  lemma FlagsApart(objs: map<nat, MObj>, frames: map<nat, PFrame>, hash: seq<seq<nat>>, c: Chains, f: nat, fr: PFrame)
    requires FramesShow(frames, c) && ObjectsShow(objs, frames, c) && HashShows(hash, frames)
    requires f in frames && fr.obj == frames[f].obj && fr.pagenum == frames[f].pagenum
    ensures FramesShow(frames[f := fr], c) && ObjectsShow(objs, frames[f := fr], c) && HashShows(hash, frames[f := fr])
  {
    hide HashPage;
    var frames' := frames[f := fr];
    forall g | g in frames'
      ensures ShownAt(c, g, frames'[g].obj, frames'[g].pagenum)
    {
      assert ShownAt(c, g, frames[g].obj, frames[g].pagenum);
    }
  }

  // ----- objects come and go -----

  /** References beyond those that an object's own resident pages hold. */
  function Spare(m: MObj): int {
    m.refcount - m.nrespages
  }

  /** Reference counts and links are nobody else's business. */
  lemma ObjectsRelink(objs: map<nat, MObj>, frames: map<nat, PFrame>, c: Chains, o: nat, rc: int, to: Option<nat>)
    requires ObjectsShow(objs, frames, c) && o in objs
    ensures ObjectsShow(objs[o := objs[o].(refcount := rc, shadowed := to)], frames, c[o := c[o].(shadowed := to)])
  {
  }

  lemma FramesRelink(frames: map<nat, PFrame>, c: Chains, o: nat, to: Option<nat>)
    requires FramesShow(frames, c) && o in c
    ensures FramesShow(frames, c[o := c[o].(shadowed := to)])
  {
    var c' := c[o := c[o].(shadowed := to)];
    forall g | g in frames
      ensures ShownAt(c', g, frames[g].obj, frames[g].pagenum)
    {
      assert ShownAt(c, g, frames[g].obj, frames[g].pagenum);
    }
  }

  /** An object without resident pages can go. */
  lemma ObjectGone(objs: map<nat, MObj>, frames: map<nat, PFrame>, c: Chains, o: nat)
    requires FramesShow(frames, c) && ObjectsShow(objs, frames, c) && o in objs && objs[o].nrespages == 0
    ensures FramesShow(frames, c - {o}) && ObjectsShow(objs - {o}, frames, c - {o})
  {
    assert forall f :: f in frames ==> frames[f].obj != o by {
      assert forall f :: f !in objs[o].respages;
    }
    forall g | g in frames
      ensures ShownAt(c - {o}, g, frames[g].obj, frames[g].pagenum)
    {
      assert ShownAt(c, g, frames[g].obj, frames[g].pagenum);
    }
  }

  lemma ObjectNew(objs: map<nat, MObj>, frames: map<nat, PFrame>, c: Chains, o: nat)
    requires FramesShow(frames, c) && ObjectsShow(objs, frames, c) && o !in objs
    ensures FramesShow(frames, c[o := Node(map[], None)])
    ensures ObjectsShow(objs[o := MObj(0, 0, [], None)], frames, c[o := Node(map[], None)])
  {
    var c', objs' := c[o := Node(map[], None)], objs[o := MObj(0, 0, [], None)];
    forall g | g in frames
      ensures ShownAt(c', g, frames[g].obj, frames[g].pagenum) && frames[g].obj != o
    {
      assert ShownAt(c, g, frames[g].obj, frames[g].pagenum);
    }
    assert FramesShow(frames, c');
    hide FramesShow, ShownAt;
    forall x | x in objs'
      ensures && objs'[x].shadowed == c'[x].shadowed
              && NoDup(objs'[x].respages) && objs'[x].nrespages == |objs'[x].respages|
              && forall f :: f in objs'[x].respages <==> f in frames && frames[f].obj == x
    {
      if x != o { assert objs'[x] == objs[x] && c'[x] == c[x]; }
    }
  }

  // ----- migration -----

  /** Page `n` of `src` goes to `dest`, unless `dest` has that page already. */
  ghost function Migrated(c: Chains, src: nat, dest: nat, n: nat): Chains
    requires src in c && dest in c && n in c[src].pages
  {
    if n in c[dest].pages then Unshown(c, src, n) else Shown(Unshown(c, src, n), dest, n, c[src].pages[n])
  }

  /** The same on the counts: in both cases both objects keep their spare references. */
  function MigratedObjects(objs: map<nat, MObj>, src: nat, dest: nat, pf: nat, taken: bool): map<nat, MObj>
    requires src in objs && dest in objs
  {
    var objs' := objs[src := Unlisted(objs[src], pf).(refcount := objs[src].refcount - 1)];
    if taken then objs' else objs'[dest := Listed(objs'[dest], pf).(refcount := objs'[dest].refcount + 1)]
  }

  lemma ListsSame(alloc: seq<nat>, pinned: seq<nat>, frames: map<nat, PFrame>, f: nat, fr: PFrame)
    requires ListsShow(alloc, pinned, frames) && f in frames && fr.pincount == frames[f].pincount
    ensures ListsShow(alloc, pinned, frames[f := fr])
  {
  }

  /** Unlinking a frame from one object and hash chain and linking it into another keeps everything
      in step. */
  lemma FrameMoves(objs: map<nat, MObj>, frames: map<nat, PFrame>, hash: seq<seq<nat>>, c: Chains, f: nat, dest: nat)
    requires FramesShow(frames, c) && ObjectsShow(objs, frames, c) && HashShows(hash, frames)
    requires f in frames && dest in objs && frames[f].obj in objs && dest != frames[f].obj && dest in c
             && frames[f].obj in c
    requires frames[f].pagenum in c[frames[f].obj].pages && c[frames[f].obj].pages[frames[f].pagenum] == f
    requires frames[f].pagenum !in c[dest].pages && |hash| == PF_HASH_SIZE
    ensures var src, n, frames' := frames[f].obj, frames[f].pagenum, frames[f := frames[f].(obj := dest)];
            && FramesShow(frames', Migrated(c, src, dest, n))
            && ObjectsShow(MigratedObjects(objs, src, dest, f, false), frames', Migrated(c, src, dest, n))
            && var hash' := hash[HashPage(src, n) := Without(hash[HashPage(src, n)], f)];
               HashShows(hash'[HashPage(dest, n) := [f] + hash'[HashPage(dest, n)]], frames')
  {
    hide FramesShow, ObjectsShow, HashShows, HashPage;
    var src, n, fr := frames[f].obj, frames[f].pagenum, frames[f].(obj := dest);
    FramesRemove(frames, c, f);
    ObjectsRemove(objs, frames, c, f, objs[src].refcount - 1);
    HashRemove(hash, frames, f);
    var c', frames', objs' := Unshown(c, src, n), frames - {f},
          objs[src := Unlisted(objs[src], f).(refcount := objs[src].refcount - 1)];
    FramesAdd(frames', c', f, fr);
    ObjectsAdd(objs', frames', c', f, fr, objs[dest].refcount + 1);
    HashAdd(hash[HashPage(src, n) := Without(hash[HashPage(src, n)], f)], frames', f, fr);
    assert frames'[f := fr] == frames[f := fr];
  }

  /** What migration asserts of a page: not busy, and if the destination has the page already (its
      page numbers are `taken`), pinned once and dirty. */
  predicate GoodFrame(fr: PFrame, taken: set<nat>) {
    !fr.busy && (fr.pagenum in taken ==> fr.pincount == 1 && fr.dirty)
  }

  class Memory {
    var objs: map<nat, MObj>
    var frames: map<nat, PFrame>
    var hash: seq<seq<nat>>
    var allocList: seq<nat>
    var pinnedList: seq<nat>
    /** The frames given to their object to write back, in order. */
    var cleaned: seq<nat>
    ghost var view: Chains

    ghost predicate Valid()
      reads this
    {
      && FramesShow(frames, view) && ObjectsShow(objs, frames, view) && HashShows(hash, frames)
      && ListsShow(allocList, pinnedList, frames)
    }

    /** `pframe_init`: no objects yet, nothing resident, all lists empty. */
    constructor ()
      ensures Valid() && objs == map[] && frames == map[] && view == map[]
      ensures allocList == [] && pinnedList == [] && cleaned == []
    {
      objs, frames, view := map[], map[], map[];
      hash := seq(PF_HASH_SIZE, _ => []);
      allocList, pinnedList, cleaned := [], [], [];
    }

    /** `mmobj_init` of an object at a fresh address. */
    method NewObject(o: nat)
      requires Valid() && o !in objs
      modifies this`objs, this`view
      ensures Valid()
      ensures objs == old(objs)[o := MObj(0, 0, [], None)] && view == old(view)[o := Node(map[], None)]
    {
      hide HashShows, ListsShow;
      ObjectNew(objs, frames, view, o);
      objs := objs[o := MObj(0, 0, [], None)];
      view := view[o := Node(map[], None)];
    }

    lemma Facts()
      requires Valid()
      ensures objs.Keys == view.Keys
      ensures forall o :: o in objs ==> objs[o].shadowed == view[o].shadowed && objs[o].nrespages >= 0
      ensures forall f :: f in frames ==> frames[f].obj in objs && ShownAt(view, f, frames[f].obj, frames[f].pagenum)
    {
      SameObjects(objs, frames, hash, view);
    }

    lemma Resident(o: nat)
      requires Valid() && o in objs
      ensures o in view && (objs[o].respages == [] ==> view[o].pages == map[] && objs[o].nrespages == 0)
      ensures objs[o].respages != [] ==> objs[o].respages[0] in frames && frames[objs[o].respages[0]].obj == o
    {
    }

    lemma NoneLeft(o: nat)
      requires Valid() && o in objs && objs[o].respages == []
      ensures forall f :: f in frames ==> frames[f].obj != o
    {
    }

    /** `pframe_get_resident`: found in its hash chain exactly when the object has the page; an
        unpinned frame moves to the back of the allocated list. */
    method GetResident(o: nat, pagenum: nat) returns (r: Option<nat>)
      requires Valid() && o in objs
      modifies this`allocList
      ensures Valid()
      ensures r == if pagenum in view[o].pages then Some(view[o].pages[pagenum]) else None
      ensures allocList == if r.Some? && r.value in frames && frames[r.value].pincount == 0
                           then Without(old(allocList), r.value) + [r.value] else old(allocList)
    {
      hide FramesShow, ObjectsShow, HashPage;
      ghost var h := HashPage(o, pagenum);
      var chain, i := hash[HashPage(o, pagenum)], 0;
      ResidentInChain(objs, frames, hash, view, o, pagenum);
      while i < |chain|
        invariant 0 <= i <= |chain| && allocList == old(allocList)
        invariant forall k :: 0 <= k < i ==> !(frames[chain[k]].obj == o && frames[chain[k]].pagenum == pagenum)
      {
        var pf := chain[i];
        assert pf in hash[h];
        if frames[pf].obj == o && frames[pf].pagenum == pagenum {
          if frames[pf].pincount == 0 {
            WithoutMembers(allocList, pf);
            NoDupCons(Without(allocList, pf), pf);
            allocList := Without(allocList, pf) + [pf];
          }
          return Some(pf);
        }
        i := i + 1;
      }
      return None;
    }

    /** `pframe_alloc`, given the fresh frame's address or that there is no memory: the page becomes
        resident, and the object gains one reference with its page. */
    method Alloc(got: Option<nat>, o: nat, pagenum: nat) returns (r: Option<nat>)
      requires Valid() && o in objs && pagenum !in view[o].pages && (got.Some? ==> got.value !in frames)
      modifies this`frames, this`hash, this`objs, this`allocList, this`view
      ensures Valid() && r == got
      ensures got.None? ==> unchanged(this)
      ensures got.Some? ==>
                && view == Shown(old(view), o, pagenum, got.value)
                && frames == old(frames)[got.value := PFrame(o, pagenum, 0, false, false)]
                && objs == old(objs)[o := Listed(old(objs)[o], got.value).(refcount := old(objs)[o].refcount + 1)]
                && allocList == old(allocList) + [got.value]
    {
      hide FramesShow, ObjectsShow, HashShows, ListsShow, HashPage;
      if got.None? {
        return None;
      }
      var pf := got.value;
      SameObjects(objs, frames, hash, view);
      ghost var fr := PFrame(o, pagenum, 0, false, false);
      FramesAdd(frames, view, pf, fr);
      ObjectsAdd(objs, frames, view, pf, fr, objs[o].refcount + 1);
      HashAdd(hash, frames, pf, fr);
      ListsAdd(allocList, pinnedList, frames, pf, fr);
      allocList := allocList + [pf];
      frames := frames[pf := PFrame(o, pagenum, 0, false, false)];
      var h := HashPage(o, pagenum);
      hash := hash[h := [pf] + hash[h]];
      objs := objs[o := objs[o].(refcount := objs[o].refcount + 1)];
      objs := objs[o := Listed(objs[o], pf)];
      assert objs == old(objs)[o := Listed(old(objs)[o], pf).(refcount := old(objs)[o].refcount + 1)];
      view := Shown(view, o, pagenum, pf);
      return Some(pf);
    }

    /** `ref`. */
    method Ref(o: nat)
      requires Valid() && o in objs
      modifies this`objs, this`view
      ensures Valid() && view == old(view)
      ensures objs == old(objs)[o := old(objs)[o].(refcount := old(objs)[o].refcount + 1)]
    {
      hide FramesShow, ObjectsShow, HashShows, ListsShow;
      SameObjects(objs, frames, hash, view);
      ObjectsRelink(objs, frames, view, o, objs[o].refcount + 1, objs[o].shadowed);
      assert view == view[o := view[o].(shadowed := objs[o].shadowed)];
      objs := objs[o := objs[o].(refcount := objs[o].refcount + 1)];
    }

    /** `put` on an object that stays: someone else still has a reference. */
    method Put(o: nat)
      requires Valid() && o in objs && Spare(objs[o]) >= 2
      modifies this`objs, this`view
      ensures Valid() && view == old(view)
      ensures objs == old(objs)[o := old(objs)[o].(refcount := old(objs)[o].refcount - 1)]
    {
      hide FramesShow, ObjectsShow, HashShows, ListsShow;
      SameObjects(objs, frames, hash, view);
      ObjectsRelink(objs, frames, view, o, objs[o].refcount - 1, objs[o].shadowed);
      assert view == view[o := view[o].(shadowed := objs[o].shadowed)];
      objs := objs[o := objs[o].(refcount := objs[o].refcount - 1)];
    }

    /** The last `put` on an object without resident pages: the object goes, and gives up its
        reference to the object it shadows. */
    method PutLast(o: nat)
      requires Valid() && o in objs && objs[o].refcount == 1 && objs[o].nrespages == 0
      requires objs[o].shadowed.Some? && objs[o].shadowed.value != o
      requires objs[o].shadowed.value in objs && Spare(objs[objs[o].shadowed.value]) >= 2
      modifies this`objs, this`view
      ensures Valid() && view == old(view) - {o}
      ensures var s := old(objs)[o].shadowed.value;
              objs == (old(objs) - {o})[s := old(objs)[s].(refcount := old(objs)[s].refcount - 1)]
    {
      hide FramesShow, ObjectsShow, HashShows, ListsShow;
      var s := objs[o].shadowed.value;
      ObjectGone(objs, frames, view, o);
      objs := objs - {o};
      view := view - {o};
      Put(s);
    }

    /** An object is put over another one. */
    method Relink(o: nat, to: Option<nat>)
      requires Valid() && o in objs
      modifies this`objs, this`view
      ensures Valid() && o in old(view) && view == old(view)[o := old(view)[o].(shadowed := to)]
      ensures objs == old(objs)[o := old(objs)[o].(shadowed := to)]
    {
      hide FramesShow, ObjectsShow, HashShows, ListsShow;
      SameObjects(objs, frames, hash, view);
      ObjectsRelink(objs, frames, view, o, objs[o].refcount, to);
      FramesRelink(frames, view, o, to);
      objs := objs[o := objs[o].(shadowed := to)];
      view := view[o := view[o].(shadowed := to)];
    }

    /** `pframe_pin`. */
    method Pin(pf: nat)
      requires Valid() && pf in frames
      modifies this`frames, this`allocList, this`pinnedList
      ensures Valid()
      ensures frames == old(frames)[pf := old(frames)[pf].(pincount := old(frames)[pf].pincount + 1)]
      ensures allocList == if old(frames)[pf].pincount == 0 then Without(old(allocList), pf) else old(allocList)
      ensures pinnedList == old(pinnedList) + if old(frames)[pf].pincount == 0 then [pf] else []
    {
      hide FramesShow, ObjectsShow, HashShows, ListsShow;
      ListsPin(allocList, pinnedList, frames, pf);
      FlagsApart(objs, frames, hash, view, pf, frames[pf].(pincount := frames[pf].pincount + 1));
      if frames[pf].pincount == 0 {
        allocList := Without(allocList, pf);
        pinnedList := pinnedList + [pf];
      }
      frames := frames[pf := frames[pf].(pincount := frames[pf].pincount + 1)];
    }

    /** `pframe_dirty`: the page is dirty unless its object does not let it be; `allowed` is the
        object's answer. */
    method Dirty(pf: nat, allowed: bool)
      requires Valid() && pf in frames && !frames[pf].busy
      modifies this`frames
      ensures Valid() && frames == old(frames)[pf := old(frames)[pf].(dirty := allowed || old(frames)[pf].dirty)]
    {
      hide FramesShow, ObjectsShow, HashShows, ListsShow;
      ghost var after := frames[pf].(dirty := allowed || frames[pf].dirty);
      FlagsApart(objs, frames, hash, view, pf, after);
      ListsSame(allocList, pinnedList, frames, pf, after);
      var fr := frames[pf];
      fr := fr.(busy := true);
      if allowed {
        fr := fr.(dirty := true);
      }
      fr := fr.(busy := false);
      frames := frames[pf := fr];
    }

    /** `pframe_unpin`. */
    method Unpin(pf: nat)
      requires Valid() && pf in frames && frames[pf].pincount > 0
      modifies this`frames, this`allocList, this`pinnedList
      ensures Valid() && view == old(view) && objs == old(objs)
      ensures frames == old(frames)[pf := old(frames)[pf].(pincount := old(frames)[pf].pincount - 1)]
      ensures allocList == old(allocList) + (if frames[pf].pincount == 0 then [pf] else []) && hash == old(hash)
      ensures pinnedList == if frames[pf].pincount == 0 then Without(old(pinnedList), pf) else old(pinnedList)
    {
      hide FramesShow, ObjectsShow, HashShows, ListsShow;
      ListsUnpin(allocList, pinnedList, frames, pf);
      FlagsApart(objs, frames, hash, view, pf, frames[pf].(pincount := frames[pf].pincount - 1));
      frames := frames[pf := frames[pf].(pincount := frames[pf].pincount - 1)];
      if frames[pf].pincount == 0 {
        pinnedList := Without(pinnedList, pf);
        allocList := allocList + [pf];
      }
    }

    /** `pframe_clean`: the object is given the page to write, and if that fails the page is dirty again. */
    method Clean(pf: nat, written: bool)
      requires Valid() && pf in frames && frames[pf].dirty && frames[pf].pincount == 0
      modifies this`frames, this`cleaned
      ensures Valid() && view == old(view) && objs == old(objs)
      ensures frames == old(frames)[pf := old(frames)[pf].(dirty := !written, busy := false)]
              && cleaned == old(cleaned) + [pf]
    {
      hide FramesShow, ObjectsShow, HashShows, ListsShow;
      ghost var after := frames[pf].(dirty := !written, busy := false);
      FlagsApart(objs, frames, hash, view, pf, after);
      ListsSame(allocList, pinnedList, frames, pf, after);
      var fr := frames[pf];
      fr := fr.(dirty := false);
      fr := fr.(busy := true);
      cleaned := cleaned + [pf];
      if !written {
        fr := fr.(dirty := true);
      }
      fr := fr.(busy := false);
      frames := frames[pf := fr];
    }

    /** `pframe_free`: the page is no longer resident, and its reference to the object goes. */
    method Free(pf: nat)
      requires Valid() && pf in frames && frames[pf].pincount == 0 && !frames[pf].busy
      requires frames[pf].obj in objs && Spare(objs[frames[pf].obj]) >= 1
      modifies this`frames, this`hash, this`objs, this`allocList, this`view
      ensures Valid() && frames == old(frames) - {pf} && allocList == Without(old(allocList), pf)
              && pinnedList == old(pinnedList)
      ensures var o := old(frames)[pf].obj;
              && o in old(view) && view == Unshown(old(view), o, old(frames)[pf].pagenum)
              && objs == old(objs)[o := Unlisted(old(objs)[o], pf).(refcount := old(objs)[o].refcount - 1)]
    {
      hide FramesShow, ObjectsShow, HashShows, ListsShow, HashPage;
      var o, n := frames[pf].obj, frames[pf].pagenum;
      SameObjects(objs, frames, hash, view);
      FramesRemove(frames, view, pf);
      ObjectsRemove(objs, frames, view, pf, objs[o].refcount);
      HashRemove(hash, frames, pf);
      ListsRemove(allocList, pinnedList, frames, pf);
      var h := HashPage(o, n);
      hash := hash[h := Without(hash[h], pf)];
      allocList := Without(allocList, pf);
      frames := frames - {pf};
      objs := objs[o := Unlisted(objs[o], pf)];
      view := Unshown(view, o, n);
      Put(o);
    }

    /** `pframe_migrate`: the frame changes hands, or goes when `dest` has a newer version; `written`
        says how the object takes that last write.  False is an assertion that fails, and that is so
        exactly when the page is busy, or is to go and is not both dirty and pinned once. */
    method Migrate(pf: nat, dest: nat, written: bool) returns (ok: bool)
      requires Valid() && pf in frames && dest in objs
      requires frames[pf].obj != dest && frames[pf].obj in objs && Spare(objs[frames[pf].obj]) >= 1
      modifies this
      ensures Valid() && dest in old(view)
      ensures ok <==> GoodFrame(old(frames)[pf], old(view)[dest].pages.Keys)
      ensures !ok ==> view == old(view) && objs == old(objs)
      ensures ok ==> var src, n := old(frames)[pf].obj, old(frames)[pf].pagenum;
                     && ShownAt(old(view), pf, src, n)
                     && view == Migrated(old(view), src, dest, n)
                     && objs == MigratedObjects(old(objs), src, dest, pf, n in old(view)[dest].pages)
                     && frames == if n in old(view)[dest].pages then old(frames) - {pf}
                                  else old(frames)[pf := old(frames)[pf].(obj := dest)]
      ensures ok ==> cleaned == old(cleaned) + if old(frames)[pf].pagenum in old(view)[dest].pages then [pf] else []
    {
      hide Memory.Valid, Unshown, Shown, Unlisted, Listed;
      Facts();
      assert ShownAt(view, pf, frames[pf].obj, frames[pf].pagenum);
      if frames[pf].busy {
        return false;
      }
      var newer := GetResident(dest, frames[pf].pagenum);
      if newer.Some? {
        // the assertions of pframe_unpin and pframe_clean
        if frames[pf].pincount == 0 {
          return false;
        }
        Unpin(pf);
        if !frames[pf].dirty || frames[pf].pincount != 0 {
          return false;
        }
        Clean(pf, written);
        Free(pf);
        assert frames == old(frames) - {pf};
      } else {
        Move(pf, dest);
      }
      ok := true;
    }

    /** The frame changes hands. */
    method Move(pf: nat, dest: nat)
      requires Valid() && pf in frames && dest in objs && frames[pf].obj != dest
      requires frames[pf].pagenum !in view[dest].pages
      modifies this`frames, this`hash, this`objs, this`view
      ensures Valid()
      ensures var src, n := old(frames)[pf].obj, old(frames)[pf].pagenum;
              && src in old(objs) && ShownAt(old(view), pf, src, n) && dest in old(view)
              && view == Migrated(old(view), src, dest, n)
              && objs == MigratedObjects(old(objs), src, dest, pf, false)
              && frames == old(frames)[pf := old(frames)[pf].(obj := dest)]
    {
      hide FramesShow, ObjectsShow, HashShows, ListsShow, HashPage, Migrated;
      SameObjects(objs, frames, hash, view);
      var src, n := frames[pf].obj, frames[pf].pagenum;
      assert ShownAt(view, pf, src, n);
      FrameMoves(objs, frames, hash, view, pf, dest);
      ListsSame(allocList, pinnedList, frames, pf, frames[pf].(obj := dest));
      frames := frames[pf := frames[pf].(obj := dest)];
      var h := HashPage(src, n);
      hash := hash[h := Without(hash[h], pf)];
      objs := objs[src := Unlisted(objs[src], pf)];
      objs := objs[src := objs[src].(refcount := objs[src].refcount - 1)];
      h := HashPage(dest, n);
      hash := hash[h := [pf] + hash[h]];
      objs := objs[dest := Listed(objs[dest], pf)];
      objs := objs[dest := objs[dest].(refcount := objs[dest].refcount + 1)];
      assert objs == MigratedObjects(old(objs), src, dest, pf, false);
      view := Migrated(view, src, dest, n);
    }
  }

  /** The frame that an object has at a page number, and no other frame, has that identity, and it
      is in the hash chain for it. */
  lemma ResidentInChain(objs: map<nat, MObj>, frames: map<nat, PFrame>, hash: seq<seq<nat>>, c: Chains,
                        o: nat, pagenum: nat)
    requires FramesShow(frames, c) && ObjectsShow(objs, frames, c) && HashShows(hash, frames) && o in objs
    ensures o in c
    ensures pagenum in c[o].pages ==> c[o].pages[pagenum] in hash[HashPage(o, pagenum)]
    ensures pagenum in c[o].pages ==>
              var f := c[o].pages[pagenum]; f in frames && frames[f].obj == o && frames[f].pagenum == pagenum
    ensures forall f :: f in frames && frames[f].obj == o && frames[f].pagenum == pagenum ==>
              pagenum in c[o].pages && c[o].pages[pagenum] == f
  {
    hide HashPage;
    forall f | f in frames && frames[f].obj == o && frames[f].pagenum == pagenum
      ensures pagenum in c[o].pages && c[o].pages[pagenum] == f
    {
      assert ShownAt(c, f, o, pagenum);
    }
  }
}
