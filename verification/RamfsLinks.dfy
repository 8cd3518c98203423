/** The inode table of ramfs with its directory entries, and who counts as a link to an inode
    (kernel/fs/ramfs/ramfs.c): every entry that names it other than the `.` and `..` of directories,
    its vnode while that is in core (kernel/fs/vnode.c), and being the root. */
module RamfsLinks {
  import opened Lists

  const MAX_FILES: nat := 64
  const MAX_DIRENT: nat := 128
  const NAME_LEN: nat := 28

  datatype Mode = Data | Dir | Chr | Blk

  datatype Entry = Entry(ino: nat, name: string)

  datatype Inode = Inode(mode: Mode, links: int, entries: seq<Option<Entry>>)

  type Table = seq<Option<Inode>>

  predicate IsInode(t: Table, n: nat) {
    n < |t| && t[n].Some?
  }

  predicate IsDir(t: Table, d: nat) {
    IsInode(t, d) && t[d].value.mode == Dir
  }

  /** A used slot of a directory other than its first two, which are `.` and `..`. */
  predicate Used(t: Table, d: nat, i: nat) {
    IsDir(t, d) && 2 <= i < |t[d].value.entries| && t[d].value.entries[i].Some?
  }

  function EntryAt(t: Table, d: nat, i: nat): Entry
    requires Used(t, d, i)
  {
    t[d].value.entries[i].value
  }

  /** The places that name inode `n`. */
  ghost function Names(t: Table, n: nat): set<(nat, nat)> {
    set d: nat, i: nat | d < |t| && i < MAX_DIRENT && Used(t, d, i) && EntryAt(t, d, i).ino == n :: (d, i)
  }

  /** No two entries have the same name. */
  ghost predicate OneEach(entries: seq<Option<Entry>>) {
    forall i, j :: 0 <= i < j < |entries| && entries[i].Some? && entries[j].Some? ==>
      entries[i].value.name != entries[j].value.name
  }

  ghost predicate Absent(entries: seq<Option<Entry>>, name: string) {
    forall i :: 0 <= i < |entries| && entries[i].Some? ==> entries[i].value.name != name
  }

  /** Directories have 128 slots, no name twice, and begin with `.` and `..`; other inodes have none. */
  ghost predicate Shaped(t: Table) {
    && |t| == MAX_FILES
    && forall n: nat :: IsInode(t, n) ==>
         if t[n].value.mode == Dir then
           && |t[n].value.entries| == MAX_DIRENT && OneEach(t[n].value.entries)
           && t[n].value.entries[0] == Some(Entry(n, "."))
           && t[n].value.entries[1].Some? && t[n].value.entries[1].value.name == ".."
         else t[n].value.entries == []
  }

  /** The other entries have other names, and name inodes that are there. */
  ghost predicate Named(t: Table) {
    forall d, i :: Used(t, d, i) ==>
      && EntryAt(t, d, i).name != "." && EntryAt(t, d, i).name != ".." && IsInode(t, EntryAt(t, d, i).ino)
  }

  /** The links that inode `n` must have. */
  ghost function Owed(t: Table, core: map<nat, nat>, n: nat): nat {
    |Names(t, n)| + (if n in core then 1 else 0) + (if n == 0 then 1 else 0)
  }

  /** Every link count is right, with one more for `extra`: the inode of an entry about to be made, or
      just removed. */
  ghost predicate Counted(t: Table, core: map<nat, nat>, extra: Option<nat>) {
    && (forall n: nat :: IsInode(t, n) ==> t[n].value.links == Owed(t, core, n) + if extra == Some(n) then 1 else 0)
    && (forall n: nat :: IsInode(t, n) ==> t[n].value.links >= 1)
  }

  /** A directory that no entry names holds nothing. */
  ghost predicate Hollow(t: Table, d: nat) {
    forall i :: !Used(t, d, i)
  }

  ghost predicate UnlinkedHollow(t: Table) {
    forall d :: IsDir(t, d) && d != 0 && Names(t, d) == {} ==> Hollow(t, d)
  }

  /** In-core vnodes belong to inodes that are there, and are referenced. */
  ghost predicate InCore(t: Table, core: map<nat, nat>) {
    IsDir(t, 0) && forall n :: n in core ==> IsInode(t, n) && core[n] >= 1
  }

  ghost predicate Ok(t: Table, core: map<nat, nat>, extra: Option<nat>) {
    Shaped(t) && Named(t) && Counted(t, core, extra) && UnlinkedHollow(t) && InCore(t, core)
  }

  // ----- link counts -----

  function WithLinks(t: Table, n: nat, d: int): Table
    requires IsInode(t, n)
  {
    t[n := Some(t[n].value.(links := t[n].value.links + d))]
  }

  function WithEntry(t: Table, d: nat, i: nat, e: Option<Entry>): Table
    requires IsDir(t, d) && i < |t[d].value.entries|
  {
    t[d := Some(t[d].value.(entries := t[d].value.entries[i := e]))]
  }

  /** Link counts do not change who names whom. */
  lemma LinksNames(t: Table, n: nat, k: int)
    requires IsInode(t, n)
    ensures var t' := WithLinks(t, n, k);
            && (forall m: nat :: IsInode(t', m) <==> IsInode(t, m))
            && (forall m: nat :: IsDir(t', m) <==> IsDir(t, m))
            && (forall d, i :: Used(t', d, i) <==> Used(t, d, i))
            && (forall d, i :: Used(t, d, i) ==> EntryAt(t', d, i) == EntryAt(t, d, i))
            && (forall m: nat :: Names(t', m) == Names(t, m))
  {
    var t' := WithLinks(t, n, k);
    forall m: nat
      ensures Names(t', m) == Names(t, m)
    {
      forall d: nat, i: nat
        ensures (d, i) in Names(t', m) <==> (d, i) in Names(t, m)
      {
        assert Used(t', d, i) <==> Used(t, d, i);
      }
    }
  }

  /** The parts of `Ok` that link counts do not touch. */
  lemma LinksKeep(t: Table, n: nat, k: int)
    requires IsInode(t, n) && Shaped(t) && Named(t) && UnlinkedHollow(t)
    ensures var t' := WithLinks(t, n, k); Shaped(t') && Named(t') && UnlinkedHollow(t')
  {
    hide Names;
    LinksNames(t, n, k);
    var t' := WithLinks(t, n, k);
    forall d | IsDir(t', d) && d != 0 && Names(t', d) == {}
      ensures Hollow(t', d)
    {
      assert Hollow(t, d);
      assert forall i :: Used(t', d, i) <==> Used(t, d, i);
    }
  }

  /** One more link than the entries say. */
  lemma RaiseLinks(t: Table, core: map<nat, nat>, n: nat)
    requires Ok(t, core, None) && IsInode(t, n)
    ensures Ok(WithLinks(t, n, 1), core, Some(n))
  {
    hide Names, Shaped, Named, UnlinkedHollow;
    LinksNames(t, n, 1);
    LinksKeep(t, n, 1);
  }

  lemma DropLinks(t: Table, core: map<nat, nat>, n: nat)
    requires Ok(t, core, Some(n)) && n in core
    ensures Ok(WithLinks(t, n, -1), core, None)
  {
    hide Names, Shaped, Named, UnlinkedHollow;
    LinksNames(t, n, -1);
    LinksKeep(t, n, -1);
  }

  lemma CoreAdd(t: Table, core: map<nat, nat>, extra: Option<nat>, n: nat)
    requires Ok(t, core, extra) && IsInode(t, n) && n !in core
    ensures Ok(WithLinks(t, n, 1), core[n := 1], extra)
  {
    hide Names, Shaped, Named, UnlinkedHollow;
    LinksNames(t, n, 1);
    LinksKeep(t, n, 1);
  }

  lemma CoreRef(t: Table, core: map<nat, nat>, extra: Option<nat>, n: nat, r: nat)
    requires Ok(t, core, extra) && n in core && r >= 1
    ensures Ok(t, core[n := r], extra)
  {
    hide Names;
  }

  /** The last reference to a vnode goes.  The inode goes with it exactly when no entry names it and it
      is not the root. */
  lemma CoreDrop(t: Table, core: map<nat, nat>, n: nat)
    requires Ok(t, core, None) && n in core
    ensures IsInode(t, n) && (t[n].value.links == 1 <==> Names(t, n) == {} && n != 0)
    ensures t[n].value.links == 1 ==> Ok(t[n := None], core - {n}, None)
    ensures t[n].value.links != 1 ==> Ok(WithLinks(t, n, -1), core - {n}, None)
  {
    hide Names, Shaped, Named, UnlinkedHollow;
    assert t[n].value.links == |Names(t, n)| + 1 + if n == 0 then 1 else 0;
    if t[n].value.links == 1 {
      FreeInode(t, core, n);
    } else {
      LinksNames(t, n, -1);
      LinksKeep(t, n, -1);
    }
  }

  lemma FreeInode(t: Table, core: map<nat, nat>, n: nat)
    requires Ok(t, core, None) && n in core && Names(t, n) == {} && n != 0
    ensures Ok(t[n := None], core - {n}, None)
  {
    hide Shaped, Counted;
    var t', core' := t[n := None], core - {n};
    assert Hollow(t, n);
    assert forall d, i :: Used(t', d, i) <==> Used(t, d, i) by {
      forall d, i
        ensures Used(t', d, i) <==> Used(t, d, i)
      {
        assert d == n ==> !Used(t, d, i);
      }
    }
    FreeNames(t, n);
    FreeShaped(t, n);
    forall d, i | Used(t', d, i)
      ensures IsInode(t', EntryAt(t', d, i).ino) && EntryAt(t', d, i) == EntryAt(t, d, i)
    {
      assert Used(t, d, i);
      SlotInRange(t, d, i);
      NamedBy(t, d, i);
    }
    FreeHollow(t, n);
    FreeCounted(t, core, n);
  }

  lemma NamedBy(t: Table, d: nat, i: nat)
    requires Used(t, d, i) && i < MAX_DIRENT
    ensures (d, i) in Names(t, EntryAt(t, d, i).ino)
  {
  }

  lemma FreeShaped(t: Table, n: nat)
    requires Shaped(t) && n < |t|
    ensures Shaped(t[n := None])
  {
  }

  lemma FreeNames(t: Table, n: nat)
    requires n < |t| && forall i :: !Used(t, n, i)
    ensures forall m: nat :: Names(t[n := None], m) == Names(t, m)
  {
    var t' := t[n := None];
    forall m: nat
      ensures Names(t', m) == Names(t, m)
    {
      forall d: nat, i: nat
        ensures (d, i) in Names(t', m) <==> (d, i) in Names(t, m)
      {
        assert d == n ==> !Used(t, d, i);
      }
    }
  }

  lemma FreeHollow(t: Table, n: nat)
    requires n < |t| && UnlinkedHollow(t) && forall i :: !Used(t, n, i)
    ensures UnlinkedHollow(t[n := None])
  {
    hide Names;
    FreeNames(t, n);
    var t' := t[n := None];
    forall d | IsDir(t', d) && d != 0 && Names(t', d) == {}
      ensures Hollow(t', d)
    {
      assert Hollow(t, d);
      assert forall i :: Used(t', d, i) ==> Used(t, d, i);
    }
  }

  lemma FreeCounted(t: Table, core: map<nat, nat>, n: nat)
    requires Counted(t, core, None) && n < |t| && forall i :: !Used(t, n, i)
    ensures Counted(t[n := None], core - {n}, None)
  {
    hide Names;
    FreeNames(t, n);
  }

  // ----- entries -----

  /** A new entry takes up the extra link. */
  lemma EntryAdd(t: Table, core: map<nat, nat>, d: nat, i: nat, n: nat, name: string)
    requires Ok(t, core, Some(n)) && IsInode(t, n) && IsDir(t, d) && 2 <= i < MAX_DIRENT && i < |t[d].value.entries|
             && t[d].value.entries[i].None?
    requires Absent(t[d].value.entries, name) && (d == 0 || Names(t, d) != {})
    ensures Ok(WithEntry(t, d, i, Some(Entry(n, name))), core, None)
  {
    hide Names, Shaped, Counted;
    var t' := WithEntry(t, d, i, Some(Entry(n, name)));
    AddNames(t, d, i, n, name);
    AddShaped(t, d, i, Some(Entry(n, name)));
    AbsentDots(t, d, name);
    AddCounted(t, core, d, i, n, name);
    forall x, j | Used(t', x, j)
      ensures IsInode(t', EntryAt(t', x, j).ino) && EntryAt(t', x, j).name != "." && EntryAt(t', x, j).name != ".."
    {
      if !(x == d && j == i) { assert Used(t, x, j) && EntryAt(t', x, j) == EntryAt(t, x, j); }
    }
    forall x | IsDir(t', x) && x != 0 && Names(t', x) == {}
      ensures Hollow(t', x)
    {
      assert x != d && x != n;
      assert Hollow(t, x);
      assert forall j :: Used(t', x, j) ==> Used(t, x, j);
    }
  }

  lemma AddNames(t: Table, d: nat, i: nat, n: nat, name: string)
    requires IsDir(t, d) && 2 <= i < MAX_DIRENT && i < |t[d].value.entries| && t[d].value.entries[i].None?
    ensures var t' := WithEntry(t, d, i, Some(Entry(n, name)));
            && (forall m: nat :: m != n ==> Names(t', m) == Names(t, m))
            && Names(t', n) == Names(t, n) + {(d, i)} && (d, i) !in Names(t, n)
  {
    var t' := WithEntry(t, d, i, Some(Entry(n, name)));
    forall m: nat
      ensures Names(t', m) == if m == n then Names(t, m) + {(d, i)} else Names(t, m)
    {
      forall x: nat, j: nat
        ensures (x, j) in Names(t', m) <==> (x, j) in Names(t, m) || (m == n && x == d && j == i)
      {
        assert !(x == d && j == i) ==> (Used(t', x, j) <==> Used(t, x, j));
      }
    }
  }

  lemma AddShaped(t: Table, d: nat, i: nat, e: Option<Entry>)
    requires Shaped(t) && IsDir(t, d) && 2 <= i < |t[d].value.entries|
    requires e.Some? ==> Absent(t[d].value.entries, e.value.name)
    ensures Shaped(WithEntry(t, d, i, e))
  {
    hide OneEach;
    OneEachWith(t[d].value.entries, i, e);
  }

  lemma OneEachWith(entries: seq<Option<Entry>>, i: nat, e: Option<Entry>)
    requires OneEach(entries) && i < |entries| && (e.Some? ==> Absent(entries, e.value.name))
    ensures OneEach(entries[i := e])
  {
  }

  lemma AbsentDots(t: Table, d: nat, name: string)
    requires Shaped(t) && IsDir(t, d) && Absent(t[d].value.entries, name)
    ensures name != "." && name != ".."
  {
    hide OneEach;
    assert t[d].value.entries[0].Some? && t[d].value.entries[1].Some?;
  }

  lemma AddCounted(t: Table, core: map<nat, nat>, d: nat, i: nat, n: nat, name: string)
    requires Counted(t, core, Some(n)) && IsDir(t, d) && 2 <= i < MAX_DIRENT && i < |t[d].value.entries|
             && t[d].value.entries[i].None?
    ensures Counted(WithEntry(t, d, i, Some(Entry(n, name))), core, None)
  {
    hide Names;
    AddNames(t, d, i, n, name);
    var t' := WithEntry(t, d, i, Some(Entry(n, name)));
    forall m: nat | IsInode(t', m)
      ensures t'[m].value.links == Owed(t', core, m) && t'[m].value.links >= 1
    {
      assert IsInode(t, m) && t'[m].value.links == t[m].value.links;
    }
  }

  /** An entry goes; its link is left over. */
  lemma EntryRemove(t: Table, core: map<nat, nat>, d: nat, i: nat)
    requires Ok(t, core, None) && Used(t, d, i)
    requires var n := EntryAt(t, d, i).ino; IsDir(t, n) ==> Hollow(t, n)
    ensures Ok(WithEntry(t, d, i, None), core, Some(EntryAt(t, d, i).ino))
  {
    hide Names, Shaped, Counted;
    var t', n := WithEntry(t, d, i, None), EntryAt(t, d, i).ino;
    SlotInRange(t, d, i);
    RemoveNames(t, d, i);
    AddShaped(t, d, i, None);
    RemoveCounted(t, core, d, i);
    forall x, j | Used(t', x, j)
      ensures Used(t, x, j) && EntryAt(t', x, j) == EntryAt(t, x, j)
    {
    }
    forall x | IsDir(t', x) && x != 0 && Names(t', x) == {}
      ensures Hollow(t', x)
    {
      assert Hollow(t, x);
      assert forall j :: Used(t', x, j) ==> Used(t, x, j);
    }
  }

  lemma SlotInRange(t: Table, d: nat, i: nat)
    requires Shaped(t) && Used(t, d, i)
    ensures 2 <= i < MAX_DIRENT
  {
  }

  lemma RemoveNames(t: Table, d: nat, i: nat)
    requires Used(t, d, i) && i < MAX_DIRENT
    ensures var t', n := WithEntry(t, d, i, None), EntryAt(t, d, i).ino;
            && (forall m: nat :: m != n ==> Names(t', m) == Names(t, m))
            && Names(t', n) == Names(t, n) - {(d, i)} && (d, i) in Names(t, n)
  {
    var t', n := WithEntry(t, d, i, None), EntryAt(t, d, i).ino;
    forall m: nat
      ensures Names(t', m) == if m == n then Names(t, m) - {(d, i)} else Names(t, m)
    {
      forall x: nat, j: nat
        ensures (x, j) in Names(t', m) <==> (x, j) in Names(t, m) && !(x == d && j == i)
      {
        assert !(x == d && j == i) ==> (Used(t', x, j) <==> Used(t, x, j));
      }
    }
  }

  lemma RemoveCounted(t: Table, core: map<nat, nat>, d: nat, i: nat)
    requires Counted(t, core, None) && Used(t, d, i) && i < MAX_DIRENT
    ensures Counted(WithEntry(t, d, i, None), core, Some(EntryAt(t, d, i).ino))
  {
    hide Names;
    RemoveNames(t, d, i);
    var t', n := WithEntry(t, d, i, None), EntryAt(t, d, i).ino;
    forall m: nat | IsInode(t', m)
      ensures t'[m].value.links == Owed(t', core, m) + (if m == n then 1 else 0) && t'[m].value.links >= 1
    {
      assert IsInode(t, m) && t'[m].value.links == t[m].value.links;
    }
  }

  // ----- a new inode -----

  function NewEntries(mode: Mode, n: nat, parent: nat): seq<Option<Entry>> {
    if mode != Dir then []
    else seq(MAX_DIRENT, i => if i == 0 then Some(Entry(n, "."))
          else if i == 1 then Some(Entry(parent, "..")) else None)
  }

  lemma InodeNew(t: Table, core: map<nat, nat>, n: nat, mode: Mode, parent: nat)
    requires Ok(t, core, None) && n < |t| && t[n].None?
    ensures Ok(t[n := Some(Inode(mode, 1, NewEntries(mode, n, parent)))], core, Some(n))
  {
    hide Names;
    var t' := t[n := Some(Inode(mode, 1, NewEntries(mode, n, parent)))];
    assert n != 0 && n !in core;
    NewNames(t, n, mode, parent);
    assert Names(t, n) == {} by { NobodyNames(t, n); }
    forall x, j | Used(t', x, j)
      ensures Used(t, x, j) && EntryAt(t', x, j) == EntryAt(t, x, j)
    {
    }
    forall x | IsDir(t', x) && x != 0 && Names(t', x) == {}
      ensures Hollow(t', x)
    {
      assert x != n ==> Hollow(t, x);
      assert forall j :: Used(t', x, j) ==> Used(t, x, j);
    }
  }

  lemma NobodyNames(t: Table, n: nat)
    requires Named(t) && !IsInode(t, n)
    ensures Names(t, n) == {}
  {
  }

  lemma NewNames(t: Table, n: nat, mode: Mode, parent: nat)
    requires n < |t| && t[n].None?
    ensures forall m: nat :: Names(t[n := Some(Inode(mode, 1, NewEntries(mode, n, parent)))], m) == Names(t, m)
  {
    var t' := t[n := Some(Inode(mode, 1, NewEntries(mode, n, parent)))];
    forall m: nat
      ensures Names(t', m) == Names(t, m)
    {
      forall d: nat, i: nat
        ensures (d, i) in Names(t', m) <==> (d, i) in Names(t, m)
      {
        assert Used(t', d, i) <==> Used(t, d, i);
      }
    }
  }
}
