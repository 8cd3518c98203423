/** ramfs with the vnode cache (kernel/fs/ramfs/ramfs.c, kernel/fs/vnode.c).

    `core` are the vnodes in core with their reference counts; ramfs vnodes have no resident pages.
    Names have 1 to 27 characters.  Whether memory for an inode is to be had is a parameter. */
module Ramfs {
  import opened Lists
  import opened RamfsLinks
  import opened RamfsTree

  datatype Result<+T> = Ok(value: T) | NoSpace | NoEntry | NotDirectory | NotEmpty {
    function ToOption(): Option<T> {
      if Ok? then Some(value) else None
    }
  }

  predicate GoodName(name: string) {
    1 <= |name| < NAME_LEN
  }

  /** The first slot of a directory with the name. */
  function Find(entries: seq<Option<Entry>>, name: string): (k: nat)
    ensures k <= |entries|
    ensures k < |entries| ==> entries[k].Some? && entries[k].value.name == name
    ensures forall i :: 0 <= i < k ==> !(entries[i].Some? && entries[i].value.name == name)
  {
    if entries == [] then 0
    else if entries[0].Some? && entries[0].value.name == name then 0
    else 1 + Find(entries[1..], name)
  }

  /** What a name in a directory stands for. */
  ghost function Resolved(t: Table, d: nat, name: string): Option<nat> {
    if IsDir(t, d) && Find(t[d].value.entries, name) < |t[d].value.entries|
    then Some(t[d].value.entries[Find(t[d].value.entries, name)].value.ino) else None
  }

  /** A name in `d` has come or gone, and all others but those in `n` stand for what they did. */
  ghost predicate Renamed(t: Table, t': Table, d: nat, name: string, n: nat) {
    forall x: nat, y: string :: !(x == d && y == name) && x != n ==> Resolved(t', x, y) == Resolved(t, x, y)
  }

  /** The same inode but for its links. */
  ghost predicate SameBut(a: Option<Inode>, b: Option<Inode>) {
    a.Some? && b.Some? && b.value.mode == a.value.mode && b.value.entries == a.value.entries
  }

  class Ramfs {
    var inodes: Table
    var core: map<nat, nat>

    ghost predicate Valid()
      reads this
    {
      RamfsLinks.Ok(inodes, core, None)
    }

    /** `ramfs_mount`: the root directory alone, its vnode referenced. */
    constructor Mount()
      ensures Valid() && core == map[0 := 1] && forall n :: 0 < n < |inodes| ==> inodes[n].None?
      ensures Tree(inodes) && Resolved(inodes, 0, ".") == Some(0) && Resolved(inodes, 0, "..") == Some(0)
    {
      inodes := seq(MAX_FILES, n => if n == 0 then Some(Inode(Dir, 2, NewEntries(Dir, 0, 0))) else None);
      core := map[0 := 1];
      new;
      Mounted(inodes, core);
      MountedTree(inodes);
      DirResolves(inodes, 0, 0);
    }

    /** `vget`, with `ramfs_read_vnode` when the vnode is not in core. */
    method VGet(n: nat, ghost extra: Option<nat>)
      requires RamfsLinks.Ok(inodes, core, extra) && IsInode(inodes, n)
      modifies this
      ensures RamfsLinks.Ok(inodes, core, extra)
      ensures core == old(core)[n := if n in old(core) then old(core)[n] + 1 else 1]
      ensures inodes == if n in old(core) then old(inodes) else WithLinks(old(inodes), n, 1)
      ensures Tree(old(inodes)) ==> Tree(inodes)
    {
      hide RamfsLinks.Ok;
      OkFacts(inodes, core, extra);
      if n in core {
        CoreRef(inodes, core, extra, n, core[n] + 1);
        core := core[n := core[n] + 1];
      } else {
        CoreAdd(inodes, core, extra, n);
        LinksTree(inodes, n, 1);
        inodes := WithLinks(inodes, n, 1);
        core := core[n := 1];
      }
    }

    /** `vput`, with `ramfs_delete_vnode` on the last reference: the inode is freed exactly when
        neither an entry nor the root's own link is left. */
    method VPut(n: nat)
      requires Valid() && n in core
      modifies this
      ensures Valid()
      ensures old(core)[n] > 1 ==> inodes == old(inodes) && core == old(core)[n := old(core)[n] - 1]
      ensures old(core)[n] == 1 ==>
                && core == old(core) - {n} && IsInode(old(inodes), n)
                && inodes == if Names(old(inodes), n) == {}
                   && n != 0 then old(inodes)[n := None] else WithLinks(old(inodes), n, -1)
      ensures n < |inodes| && (inodes[n].None? <==> old(core)[n] == 1 && Names(old(inodes), n) == {} && n != 0)
      ensures forall m :: 0 <= m < |inodes| && m != n ==> inodes[m] == old(inodes)[m]
      ensures Tree(old(inodes)) ==> Tree(inodes)
    {
      hide RamfsLinks.Ok, Names;
      OkFacts(inodes, core, None);
      if core[n] > 1 {
        CoreRef(inodes, core, None, n, core[n] - 1);
        core := core[n := core[n] - 1];
      } else {
        CoreDrop(inodes, core, n);
        LinksTree(inodes, n, -1);
        GoneTree(inodes, n);
        inodes := WithLinks(inodes, n, -1);
        if inodes[n].value.links == 0 {
          inodes := inodes[n := None];
          assert inodes == old(inodes)[n := None];
        }
        core := core - {n};
      }
    }

    /** `ramfs_alloc_inode`: the first unused inode, if there is memory for it. */
    method AllocInode(mode: Mode, memory: bool) returns (r: Option<nat>)
      requires |inodes| == MAX_FILES
      modifies this`inodes
      ensures r.Some? <==> memory && exists n :: 0 <= n < MAX_FILES && old(inodes)[n].None?
      ensures r.None? ==> inodes == old(inodes)
      ensures r.Some? ==>
                && r.value < MAX_FILES && old(inodes)[r.value].None?
                   && (forall m :: 0 <= m < r.value ==> old(inodes)[m].Some?)
                && inodes == old(inodes)[r.value := Some(Inode(mode, 1,
                     if mode == Dir then seq(MAX_DIRENT, _ => None) else []))]
    {
      var i := 0;
      while i < MAX_FILES
        invariant 0 <= i <= MAX_FILES
        invariant forall m :: 0 <= m < i ==> inodes[m].Some?
        invariant inodes == old(inodes)
      {
        if inodes[i].None? {
          if !memory {
            return None;
          }
          inodes := inodes[i := Some(Inode(mode, 1, if mode == Dir then seq(MAX_DIRENT, _ => None) else []))];
          return Some(i);
        }
        i := i + 1;
      }
      return None;
    }

    /** The search for an empty slot. */
    method FindSlot(d: nat) returns (k: nat)
      requires Valid() && IsDir(inodes, d)
      ensures |inodes[d].value.entries| == MAX_DIRENT && k <= MAX_DIRENT
      ensures k < MAX_DIRENT ==> 2 <= k && FirstSlot(inodes[d].value.entries, k)
      ensures k == MAX_DIRENT <==> forall i :: 0 <= i < MAX_DIRENT ==> inodes[d].value.entries[i].Some?
    {
      hide Names;
      var entries := inodes[d].value.entries;
      k := 0;
      while k < MAX_DIRENT && entries[k].Some?
        invariant 0 <= k <= MAX_DIRENT
        invariant forall i :: 0 <= i < k ==> entries[i].Some?
      {
        k := k + 1;
      }
    }

    /** `ramfs_lookup`; `..` of a directory whose parent is gone is not looked up. */
    method Lookup(d: nat, name: string) returns (r: Result<nat>)
      requires Valid() && IsDir(inodes, d) && GoodName(name)
      requires name == ".." ==>
                 inodes[d].value.entries[1].Some? && IsInode(inodes, inodes[d].value.entries[1].value.ino)
      modifies this
      ensures Valid()
      ensures var entries := old(inodes)[d].value.entries;
              var k := Find(entries, name);
              if k == |entries| then r == NoEntry && inodes == old(inodes) && core == old(core)
              else
                && r == Ok(entries[k].value.ino) && IsInode(old(inodes), r.value)
                && core == old(core)[r.value := if r.value in old(core) then old(core)[r.value] + 1 else 1]
                && inodes == if r.value in old(core) then old(inodes) else WithLinks(old(inodes), r.value, 1)
      ensures r == (match Resolved(old(inodes), d, name) case None => NoEntry case Some(n) => Ok(n))
      ensures Tree(old(inodes)) ==> Tree(inodes)
    {
      hide RamfsLinks.Ok, Names;
      OkFacts(inodes, core, None);
      var entries := inodes[d].value.entries;
      var i := 0;
      while i < MAX_DIRENT
        invariant 0 <= i <= MAX_DIRENT && Find(entries, name) >= i
        invariant inodes == old(inodes) && core == old(core)
      {
        if entries[i].Some? && entries[i].value.name == name {
          FindAt(entries, name, i);
          Findable(inodes, core, d, i);
          VGet(entries[i].value.ino, None);
          return Ok(entries[i].value.ino);
        }
        i := i + 1;
      }
      return NoEntry;
    }

    /** A new inode with its entry in a directory: what `create`, `mknod` and `mkdir` share. */
    ghost predicate CanAdd(d: nat, name: string)
      reads this
    {
      && IsDir(inodes, d) && GoodName(name) && (d == 0 || Names(inodes, d) != {})
      && Find(inodes[d].value.entries, name) == |inodes[d].value.entries|
    }

    /** `ramfs_create`: a new file under the name, its vnode referenced. */
    method Create(d: nat, name: string, memory: bool) returns (r: Result<nat>)
      requires Valid() && d in core && CanAdd(d, name)
      modifies this
      ensures Valid() && (r.Ok? || r.NoSpace?)
      ensures r.NoSpace? ==> inodes == old(inodes) && core == old(core)
      ensures r.NoSpace? <==> NoRoom(old(inodes), d, memory)
      ensures r.Ok? ==>
                && Entered(old(inodes), inodes, d, r.value, Data, name)
                && core == old(core)[r.value := 1] && r.value !in old(core)
      ensures r.Ok? ==> Resolved(inodes, d, name) == r.ToOption() && Renamed(old(inodes), inodes, d, name, r.value)
      ensures Tree(old(inodes)) ==> Tree(inodes)
    {
      hide RamfsLinks.Ok, Names;
      OkFacts(inodes, core, None);
      var k := FindSlot(d);
      if k == MAX_DIRENT {
        return NoSpace;
      }
      var n := AllocInode(Data, memory);
      if n.None? {
        return NoSpace;
      }
      Adding(old(inodes), core, d, n.value, Data, name);
      LinksSame(inodes, n.value, d);
      VGet(n.value, Some(n.value));
      EntryAdd(inodes, core, d, k, n.value, name);
      inodes := WithEntry(inodes, d, k, Some(Entry(n.value, name)));
      EnteredNames(old(inodes), inodes, d, n.value, Data, name);
      EnteredTree(old(inodes), old(core), inodes, d, n.value, Data, name);
      return Ok(n.value);
    }

    /** `ramfs_mknod`: a new device under the name. */
    method Mknod(d: nat, name: string, block: bool, memory: bool) returns (r: Result<nat>)
      requires Valid() && d in core && CanAdd(d, name)
      modifies this
      ensures Valid() && (r.Ok? || r.NoSpace?) && core == old(core)
      ensures r.NoSpace? ==> inodes == old(inodes)
      ensures r.NoSpace? <==> NoRoom(old(inodes), d, memory)
      ensures r.Ok? ==> Entered(old(inodes), inodes, d, r.value, if block then Blk else Chr, name)
      ensures r.Ok? ==> Resolved(inodes, d, name) == r.ToOption() && Renamed(old(inodes), inodes, d, name, r.value)
      ensures Tree(old(inodes)) ==> Tree(inodes)
    {
      hide RamfsLinks.Ok, Names;
      OkFacts(inodes, core, None);
      var k := FindSlot(d);
      if k == MAX_DIRENT {
        return NoSpace;
      }
      var n := AllocInode(if block then Blk else Chr, memory);
      if n.None? {
        return NoSpace;
      }
      Adding(old(inodes), core, d, n.value, if block then Blk else Chr, name);
      EntryAdd(inodes, core, d, k, n.value, name);
      inodes := WithEntry(inodes, d, k, Some(Entry(n.value, name)));
      EnteredNames(old(inodes), inodes, d, n.value, if block then Blk else Chr, name);
      EnteredTree(old(inodes), old(core), inodes, d, n.value, if block then Blk else Chr, name);
      return Ok(n.value);
    }

    /** `ramfs_mkdir`: a new directory under the name, with its `.` and `..`. */
    method Mkdir(d: nat, name: string, memory: bool) returns (r: Result<nat>)
      requires Valid() && d in core && CanAdd(d, name)
      modifies this
      ensures Valid() && (r.Ok? || r.NoSpace?) && core == old(core)
      ensures r.NoSpace? ==> inodes == old(inodes)
      ensures r.NoSpace? <==> NoRoom(old(inodes), d, memory)
      ensures r.Ok? ==> Entered(old(inodes), inodes, d, r.value, Dir, name)
      ensures r.Ok? ==> Resolved(inodes, d, name) == r.ToOption() && Renamed(old(inodes), inodes, d, name, r.value)
      ensures r.Ok? ==> Resolved(inodes, r.value, ".") == r.ToOption() && Resolved(inodes, r.value, "..") == Some(d)
      ensures r.Ok? ==> forall x :: x != "." && x != ".." ==> Resolved(inodes, r.value, x) == None
      ensures Tree(old(inodes)) ==> Tree(inodes)
    {
      hide RamfsLinks.Ok, Names;
      OkFacts(inodes, core, None);
      var k := FindSlot(d);
      if k == MAX_DIRENT {
        return NoSpace;
      }
      var n := AllocInode(Dir, memory);
      if n.None? {
        return NoSpace;
      }
      AddingDir(old(inodes), core, d, n.value, name);
      DirMade(old(inodes), core, d, k, n.value, name);
      inodes := WithEntry(inodes, d, k, Some(Entry(n.value, name)));
      inodes := WithEntry(inodes, n.value, 0, Some(Entry(n.value, ".")));
      inodes := WithEntry(inodes, n.value, 1, Some(Entry(d, "..")));
      DirResolves(inodes, n.value, d);
      EnteredNames(old(inodes), inodes, d, n.value, Dir, name);
      EnteredTree(old(inodes), old(core), inodes, d, n.value, Dir, name);
      return Ok(n.value);
    }

    /** `ramfs_link`: one more name for an inode in core. */
    method Link(n: nat, d: nat, name: string) returns (r: Result<nat>)
      requires Valid() && d in core && n in core && CanAdd(d, name)
      modifies this`inodes
      ensures Valid() && (r.Ok? || r.NoSpace?)
      ensures r.NoSpace? ==> inodes == old(inodes)
      ensures r.NoSpace? <==>
                forall i :: 0 <= i < |old(inodes)[d].value.entries| ==> old(inodes)[d].value.entries[i].Some?
      ensures r.Ok? ==>
                r == Ok(n) && Linked(old(inodes), inodes, d, n, name)
      ensures r.Ok? ==> Resolved(inodes, d, name) == Some(n)
      ensures r.Ok? ==>
                forall x: nat, y: string :: !(x == d && y == name) ==>
                  Resolved(inodes, x, y) == Resolved(old(inodes), x, y)
      ensures Tree(old(inodes)) && r.Ok? ==>
                (Tree(inodes) <==> (IsDir(old(inodes), n) ==> n != 0 && Resolved(old(inodes), n, "..") == Some(d)))
    {
      hide RamfsLinks.Ok, Names;
      OkFacts(inodes, core, None);
      var k := FindSlot(d);
      if k == MAX_DIRENT {
        return NoSpace;
      }
      NotDots(inodes, core, d, name);
      RaiseLinks(inodes, core, n);
      LinksSame(inodes, n, d);
      EntryAdd(WithLinks(inodes, n, 1), core, d, k, n, name);
      LinkOrder(inodes, d, k, n, Some(Entry(n, name)), 1);
      inodes := WithEntry(inodes, d, k, Some(Entry(n, name)));
      inodes := WithLinks(inodes, n, 1);
      LinkedNames(old(inodes), inodes, d, k, n, name);
      LinkedTree(old(inodes), core, inodes, d, k, n, name);
      return Ok(n);
    }

    /** Clearing the entry that was looked up, its link and the reference from looking it up. */
    method Remove(d: nat, name: string, n: nat, ghost k: nat)
      requires Valid() && Used(inodes, d, k) && k == Find(inodes[d].value.entries, name)
               && EntryAt(inodes, d, k).ino == n
      requires n in core && (IsDir(inodes, n) ==> Hollow(inodes, n))
      modifies this
      ensures Valid() && |inodes| == |old(inodes)| && n < |inodes|
      ensures core == if old(core)[n] == 1 then old(core) - {n} else old(core)[n := old(core)[n] - 1]
      ensures inodes[n].None? <==> old(core)[n] == 1 && Names(old(inodes), n) == {(d, k)} && n != 0
      ensures Removed(old(inodes), inodes, d, k, n)
    {
      hide RamfsLinks.Ok, Names;
      OkFacts(inodes, core, None);
      ghost var t, c := inodes, core;
      var i := 0;
      while i < MAX_DIRENT
        invariant 0 <= i <= k && inodes == t && core == c
      {
        if inodes[d].value.entries[i].Some? && inodes[d].value.entries[i].value.name == name {
          break;
        }
        i := i + 1;
      }
      assert i == k;
      EntryRemove(t, c, d, k);
      RemoveNames(t, d, k);
      inodes := WithEntry(inodes, d, i, None);
      DropLinks(inodes, core, n);
      LinksNames(inodes, n, -1);
      inodes := WithLinks(inodes, n, -1);
      assert Names(inodes, n) == Names(t, n) - {(d, k)} && (Names(inodes, n) == {} <==> Names(t, n) == {(d, k)});
      ghost var mid := inodes;
      VPut(n);
      RemovedThen(t, mid, inodes, d, k, n);
    }

    /** `ramfs_unlink`: the entry goes, and the file with it exactly when no other entry names it and
        its vnode was not in core. */
    method Unlink(d: nat, name: string)
      requires Valid() && d in core && IsDir(inodes, d) && GoodName(name)
      requires var k := Find(inodes[d].value.entries, name);
               k < |inodes[d].value.entries| && !IsDir(inodes, inodes[d].value.entries[k].value.ino) && name != "."
                   && name != ".."
      modifies this
      ensures Valid() && core == old(core)
      ensures var k := Find(old(inodes)[d].value.entries, name);
              var n := old(inodes)[d].value.entries[k].value.ino;
              && n < |inodes| && Removed(old(inodes), inodes, d, k, n)
              && (inodes[n].None? <==> n !in old(core) && Names(old(inodes), n) == {(d, k)})
      ensures Resolved(inodes, d, name) == None
      ensures forall x: nat, y: string :: !(x == d && y == name) ==>
                Resolved(inodes, x, y) == Resolved(old(inodes), x, y)
      ensures Tree(old(inodes)) ==> Tree(inodes)
    {
      hide RamfsLinks.Ok, Names;
      OkFacts(inodes, core, None);
      ghost var t, c := inodes, core;
      ghost var k := Find(inodes[d].value.entries, name);
      EntryUsed(t, c, d, k, name);
      var vn := Lookup(d, name);
      LookedUp(t, c, inodes, vn.value);
      assert Used(inodes, d, k);
      ghost var mid := inodes;
      Remove(d, name, vn.value, k);
      assert core == c;
      RemovedAll(t, c, mid, inodes, d, k, vn.value, name);
    }

    /** `ramfs_rmdir`. */
    method Rmdir(d: nat, name: string) returns (r: Result<nat>)
      requires Valid() && d in core && IsDir(inodes, d) && GoodName(name) && name != "." && name != ".."
      modifies this
      ensures Valid() && core == old(core)
      ensures var entries := old(inodes)[d].value.entries;
              var k := Find(entries, name);
              if k == |entries| then r == NoEntry && inodes == old(inodes)
              else
                var n := entries[k].value.ino;
                && (r == NotDirectory <==> !IsDir(old(inodes), n))
                && (r == NotEmpty <==> IsDir(old(inodes), n) && !Hollow(old(inodes), n))
                && (r == NotDirectory || r == NotEmpty ==> inodes == old(inodes))
                && (r.Ok? <==> IsDir(old(inodes), n) && Hollow(old(inodes), n))
                && (r.Ok? ==>
                      && n < |inodes| && Removed(old(inodes), inodes, d, k, n)
                      && (inodes[n].None? <==> n !in old(core) && Names(old(inodes), n) == {(d, k)} && n != 0)
                      && Renamed(old(inodes), inodes, d, name, n))
      ensures r.Ok? ==> Resolved(inodes, d, name) == None && Resolved(old(inodes), d, name) == r.ToOption()
      ensures Tree(old(inodes)) ==> Tree(inodes)
    {
      hide RamfsLinks.Ok, Names, Resolved, Renamed, Removed, Tree;
      OkFacts(inodes, core, None);
      ghost var t, c := inodes, core;
      ghost var k := Find(inodes[d].value.entries, name);
      if k < |t[d].value.entries| { EntryUsed(t, c, d, k, name); }
      var vn := Lookup(d, name);
      if vn.NoEntry? {
        return NoEntry;
      }
      var n := vn.value;
      LookedUpAt(t, c, inodes, n, d, k);
      OkFacts(inodes, core, None);
      if inodes[n].value.mode != Dir {
        GiveBack(n, t, c, d, k);
        return NotDirectory;
      }
      var empty := IsEmpty(n);
      if !empty {
        GiveBack(n, t, c, d, k);
        return NotEmpty;
      }
      ghost var mid := inodes;
      Remove(d, name, n, k);
      RemovedAll(t, c, mid, inodes, d, k, n, name);
      return Ok(n);
    }

    /** The check of `ramfs_rmdir` that a directory has no entries but the dots. */
    method IsEmpty(n: nat) returns (empty: bool)
      requires Valid() && IsDir(inodes, n)
      ensures empty <==> Hollow(inodes, n)
    {
      hide RamfsLinks.Ok, Names;
      OkFacts(inodes, core, None);
      var i := 0;
      while i < MAX_DIRENT
        invariant 0 <= i <= MAX_DIRENT
        invariant forall j :: 2 <= j < i ==> !Used(inodes, n, j)
      {
        var e := inodes[n].value.entries[i];
        DotsFirst(inodes, core, n, i);
        if e.Some? && e.value.name != "." && e.value.name != ".." {
          return false;
        }
        i := i + 1;
      }
      return true;
    }

    /** Giving back what a lookup from state `t`, `c` referenced. */
    method GiveBack(n: nat, ghost t: Table, ghost c: map<nat, nat>, ghost d: nat, ghost k: nat)
      requires Valid() && IsInode(t, n) && inodes == if n in c then t else WithLinks(t, n, 1)
      requires core == c[n := if n in c then c[n] + 1 else 1] && (n in c ==> c[n] >= 1)
      requires Used(t, d, k) && k < MAX_DIRENT && EntryAt(t, d, k).ino == n
      modifies this
      ensures Valid() && inodes == t && core == c
    {
      hide RamfsLinks.Ok, Names;
      BackOut(t, c, inodes, n, d, k);
      VPut(n);
    }
  }

  lemma FindAt(entries: seq<Option<Entry>>, name: string, i: nat)
    requires i < |entries| && Find(entries, name) >= i && entries[i].Some? && entries[i].value.name == name
    ensures Find(entries, name) == i
  {
  }

  lemma OkFacts(t: Table, core: map<nat, nat>, extra: Option<nat>)
    requires RamfsLinks.Ok(t, core, extra)
    ensures |t| == MAX_FILES && (forall n :: n in core ==> IsInode(t, n) && core[n] >= 1)
    ensures IsDir(t, 0) && forall d: nat :: IsDir(t, d) ==> |t[d].value.entries| == MAX_DIRENT
  {
    hide Names;
  }

  /** An entry under a name that can be looked up names an inode. */
  lemma Findable(t: Table, core: map<nat, nat>, d: nat, i: nat)
    requires RamfsLinks.Ok(t, core, None) && IsDir(t, d) && i < |t[d].value.entries| && t[d].value.entries[i].Some?
    requires t[d].value.entries[i].value.name == ".." ==>
               1 < |t[d].value.entries| && t[d].value.entries[1].Some? && IsInode(t, t[d].value.entries[1].value.ino)
    ensures IsInode(t, t[d].value.entries[i].value.ino)
  {
    hide Names;
    if i >= 2 { assert Used(t, d, i) && EntryAt(t, d, i) == t[d].value.entries[i].value; }
  }

  /** Neither a slot nor an inode is to be had. */
  ghost predicate NoRoom(t: Table, d: nat, memory: bool)
    requires IsDir(t, d)
  {
    || (forall i :: 0 <= i < |t[d].value.entries| ==> t[d].value.entries[i].Some?)
    || !memory || (forall n :: 0 <= n < |t| ==> t[n].Some?)
  }

  /** The first slot that is not in use. */
  ghost predicate FirstSlot(entries: seq<Option<Entry>>, k: nat) {
    k < |entries| && entries[k].None? && forall i :: 0 <= i < k ==> entries[i].Some?
  }

  /** The table has a new inode `n` of the mode, the first there was, named by the first free slot of
      `d`, and is else the same. */
  ghost predicate Entered(t: Table, t': Table, d: nat, n: nat, mode: Mode, name: string) {
    && |t'| == |t| && n < |t| && t[n].None? && IsInode(t', n) && t'[n].value.mode == mode && IsDir(t, d) && IsDir(t', d)
       && d != n
    && (forall m :: 0 <= m < n ==> t[m].Some?)
    && (exists k ::
          && 2 <= k < |t[d].value.entries| && FirstSlot(t[d].value.entries, k)
          && t'[d] == WithEntry(t, d, k, Some(Entry(n, name)))[d])
    && (forall m :: 0 <= m < |t| && m != d && m != n ==> t'[m] == t[m])
  }

  /** A new file or device, its entry yet to be made. */
  lemma Adding(t: Table, core: map<nat, nat>, d: nat, n: nat, mode: Mode, name: string)
    requires RamfsLinks.Ok(t, core, None) && IsDir(t, d) && n < |t| && t[n].None? && mode != Dir
    requires Find(t[d].value.entries, name) == |t[d].value.entries|
    ensures var t' := t[n := Some(Inode(mode, 1, []))];
            && RamfsLinks.Ok(t', core, Some(n)) && n != d && n !in core && Names(t', d) == Names(t, d)
            && name != "." && name != ".."
  {
    hide Names;
    InodeNew(t, core, n, mode, d);
    NewNames(t, n, mode, d);
    assert t[d].value.entries[0].Some? && t[d].value.entries[1].Some?;
  }

  /** Its vnode comes into core. */
  lemma LinksSame(t: Table, n: nat, d: nat)
    requires IsInode(t, n)
    ensures Names(WithLinks(t, n, 1), d) == Names(t, d)
  {
    hide Names;
    LinksNames(t, n, 1);
  }

  lemma NotDots(t: Table, core: map<nat, nat>, d: nat, name: string)
    requires RamfsLinks.Ok(t, core, None) && IsDir(t, d) && Find(t[d].value.entries, name) == |t[d].value.entries|
    ensures name != "." && name != ".."
  {
    hide Names;
    assert t[d].value.entries[0].Some? && t[d].value.entries[1].Some?;
  }

  /** The table after the three writes of `ramfs_mkdir`. */
  ghost function DirTable(t: Table, d: nat, k: nat, n: nat, name: string): Table
    requires IsDir(t, d) && n < |t| && n != d && k < |t[d].value.entries|
  {
    var t1 := t[n := Some(Inode(Dir, 1, seq(MAX_DIRENT, _ => None)))];
    var t2 := WithEntry(t1, d, k, Some(Entry(n, name)));
    WithEntry(WithEntry(t2, n, 0, Some(Entry(n, "."))), n, 1, Some(Entry(d, "..")))
  }

  lemma DirMade(t: Table, core: map<nat, nat>, d: nat, k: nat, n: nat, name: string)
    requires RamfsLinks.Ok(t, core, None) && IsDir(t, d) && n < |t| && t[n].None? && n != d
             && (forall m :: 0 <= m < n ==> t[m].Some?)
    requires 2 <= k < |t[d].value.entries| && FirstSlot(t[d].value.entries, k) && Absent(t[d].value.entries, name)
             && (d == 0 || Names(t, d) != {})
    ensures var t' := DirTable(t, d, k, n, name);
            && RamfsLinks.Ok(t', core, None) && Entered(t, t', d, n, Dir, name) && IsInode(t', n)
            && t'[n].value.entries == NewEntries(Dir, n, d)
  {
    hide Names, RamfsLinks.Ok;
    OkFacts(t, core, None);
    var new1 := t[n := Some(Inode(Dir, 1, NewEntries(Dir, n, d)))];
    InodeNew(t, core, n, Dir, d);
    NewNames(t, n, Dir, d);
    EntryAdd(new1, core, d, k, n, name);
    DirTableIs(t, d, k, n, name);
  }

  lemma DirTableIs(t: Table, d: nat, k: nat, n: nat, name: string)
    requires IsDir(t, d) && n < |t| && n != d && k < |t[d].value.entries|
    ensures var new1 := t[n := Some(Inode(Dir, 1, NewEntries(Dir, n, d)))];
            DirTable(t, d, k, n, name) == WithEntry(new1, d, k, Some(Entry(n, name)))
  {
    var t' := DirTable(t, d, k, n, name);
    assert t'[n].value.entries == NewEntries(Dir, n, d);
  }

  /** A new directory with its first two entries, its entry in the parent yet to be made. */
  lemma AddingDir(t: Table, core: map<nat, nat>, d: nat, n: nat, name: string)
    requires RamfsLinks.Ok(t, core, None) && IsDir(t, d) && n < |t| && t[n].None?
    requires Find(t[d].value.entries, name) == |t[d].value.entries|
    ensures var t' := t[n := Some(Inode(Dir, 1, NewEntries(Dir, n, d)))];
            && RamfsLinks.Ok(t', core, Some(n)) && n != d && n !in core && Names(t', d) == Names(t, d)
            && name != "." && name != ".."
  {
    hide Names;
    InodeNew(t, core, n, Dir, d);
    NewNames(t, n, Dir, d);
    NotDots(t, core, d, name);
  }

  ghost predicate Linked(t: Table, t': Table, d: nat, n: nat, name: string) {
    && IsInode(t, n) && IsDir(t, d)
    && exists k :: 2 <= k < |t[d].value.entries| && FirstSlot(t[d].value.entries, k)
         && t' == WithEntry(WithLinks(t, n, 1), d, k, Some(Entry(n, name)))
  }

  lemma LinkOrder(t: Table, d: nat, k: nat, n: nat, e: Option<Entry>, more: int)
    requires IsInode(t, n) && IsDir(t, d) && k < |t[d].value.entries|
    ensures IsInode(WithEntry(t, d, k, e), n) && IsDir(WithLinks(t, n, more), d)
    ensures WithLinks(WithEntry(t, d, k, e), n, more) == WithEntry(WithLinks(t, n, more), d, k, e)
  {
  }

  /** A name other than the dots is found in a used slot, of an inode that is there. */
  lemma EntryUsed(t: Table, core: map<nat, nat>, d: nat, k: nat, name: string)
    requires RamfsLinks.Ok(t, core, None) && IsDir(t, d) && k == Find(t[d].value.entries, name) < |t[d].value.entries|
    requires name != "." && name != ".."
    ensures Used(t, d, k) && IsInode(t, EntryAt(t, d, k).ino) && IsDir(t, 0)
  {
    hide Names;
  }

  /** Looking an inode up leaves the entries alone. */
  lemma LookedUp(t: Table, core: map<nat, nat>, t': Table, n: nat)
    requires IsInode(t, n) && t' == if n in core then t else WithLinks(t, n, 1)
    ensures forall m: nat :: IsDir(t', m) <==> IsDir(t, m)
    ensures forall d, i :: Used(t', d, i) <==> Used(t, d, i)
    ensures forall m: nat :: Names(t', m) == Names(t, m)
    ensures |t'| == |t| && IsInode(t', n)
            && (forall m: nat :: IsDir(t, m) ==> t'[m].value.entries == t[m].value.entries)
    ensures forall m :: 0 <= m < |t| && m != n ==> t'[m] == t[m]
  {
    hide Names;
    LinksNames(t, n, 1);
  }

  lemma LookedUpAt(t: Table, core: map<nat, nat>, t': Table, n: nat, d: nat, k: nat)
    requires IsInode(t, n) && t' == (if n in core then t else WithLinks(t, n, 1)) && Used(t, d, k)
    ensures IsInode(t', n) && IsDir(t', n) == IsDir(t, n) && (IsDir(t, n) ==> Hollow(t', n) == Hollow(t, n))
    ensures Used(t', d, k) && t'[d].value.entries == t[d].value.entries && Names(t', n) == Names(t, n)
  {
    hide Names;
    LookedUp(t, core, t', n);
  }

  /** And giving it back undoes it. */
  lemma BackOut(t: Table, core: map<nat, nat>, t': Table, n: nat, d: nat, k: nat)
    requires IsInode(t, n) && t' == if n in core then t else WithLinks(t, n, 1)
    requires Used(t, d, k) && k < MAX_DIRENT && EntryAt(t, d, k).ino == n
    ensures Names(t', n) != {} && (n !in core ==> IsInode(t', n) && WithLinks(t', n, -1) == t)
  {
    LookedUp(t, core, t', n);
    NamedBy(t, d, k);
  }

  /** The dots are the first two entries and no others. */
  lemma DotsFirst(t: Table, core: map<nat, nat>, d: nat, i: nat)
    requires RamfsLinks.Ok(t, core, None) && IsDir(t, d) && i < |t[d].value.entries|
    ensures var e := t[d].value.entries[i];
            Used(t, d, i) <==> e.Some? && e.value.name != "." && e.value.name != ".."
  {
    hide Names;
    if Used(t, d, i) { assert EntryAt(t, d, i) == t[d].value.entries[i].value; }
  }

  lemma Mounted(t: Table, core: map<nat, nat>)
    requires |t| == MAX_FILES && t[0] == Some(Inode(Dir, 2, NewEntries(Dir, 0, 0)))
             && (forall n :: 0 < n < |t| ==> t[n].None?)
    requires core == map[0 := 1]
    ensures RamfsLinks.Ok(t, core, None)
  {
    assert forall d, i :: !Used(t, d, i);
    assert Names(t, 0) == {};
  }

  lemma MountedTree(t: Table)
    requires |t| == MAX_FILES && t[0] == Some(Inode(Dir, 2, NewEntries(Dir, 0, 0)))
             && (forall n :: 0 < n < |t| ==> t[n].None?)
    ensures Tree(t)
  {
    assert forall d, i :: !Used(t, d, i);
    assert Ranked(t, seq(|t|, _ => 0));
  }

  // ----- what names stand for -----

  /** A directory with nothing but its dots. */
  lemma DirResolves(t: Table, n: nat, parent: nat)
    requires IsDir(t, n) && t[n].value.entries == NewEntries(Dir, n, parent)
    ensures Resolved(t, n, ".") == Some(n) && Resolved(t, n, "..") == Some(parent)
    ensures forall x :: x != "." && x != ".." ==> Resolved(t, n, x) == None
  {
    FindAt(t[n].value.entries, "..", 1);
  }

  lemma FindNew(entries: seq<Option<Entry>>, k: nat, e: Entry)
    requires k < |entries| && Absent(entries, e.name)
    ensures Find(entries[k := Some(e)], e.name) == k
  {
    var es := entries[k := Some(e)];
    assert es[k].Some?;
  }

  lemma FindGone(entries: seq<Option<Entry>>, k: nat)
    requires k < |entries| && entries[k].Some? && OneEach(entries)
    ensures Find(entries[k := None], entries[k].value.name) == |entries|
  {
    var es := entries[k := None];
    assert forall i :: 0 <= i < |es| && i != k ==> es[i] == entries[i];
  }

  lemma FindOther(entries: seq<Option<Entry>>, k: nat, e: Option<Entry>, name: string)
    requires k < |entries| && (entries[k].Some? ==> entries[k].value.name != name)
    requires e.Some? ==> e.value.name != name
    ensures Find(entries[k := e], name) == Find(entries, name) != k
  {
    var es := entries[k := e];
    var a, b := Find(es, name), Find(entries, name);
    assert forall i :: 0 <= i < |es| && i != k ==> es[i] == entries[i];
  }

  /** One slot of a directory has changed. */
  lemma ResolvedWith(t: Table, t': Table, d: nat, k: nat, e: Option<Entry>, name: string)
    requires IsDir(t, d) && IsDir(t', d) && k < |t[d].value.entries|
    requires t'[d].value.entries == t[d].value.entries[k := e]
    requires t[d].value.entries[k].Some? ==> t[d].value.entries[k].value.name == name
    requires e.Some? ==> e.value.name == name
    ensures forall y: string :: y != name ==> Resolved(t', d, y) == Resolved(t, d, y)
  {
    forall y: string | y != name
      ensures Resolved(t', d, y) == Resolved(t, d, y)
    {
      FindOther(t[d].value.entries, k, e, y);
    }
  }

  lemma ResolvedSame(t: Table, t': Table, d: nat)
    requires IsDir(t, d) <==> IsDir(t', d)
    requires IsDir(t, d) ==> t'[d].value.entries == t[d].value.entries
    ensures forall y: string :: Resolved(t', d, y) == Resolved(t, d, y)
  {
  }

  lemma EnteredNames(t: Table, t': Table, d: nat, n: nat, mode: Mode, name: string)
    requires Entered(t, t', d, n, mode, name) && Absent(t[d].value.entries, name)
    ensures Resolved(t', d, name) == Some(n) && Renamed(t, t', d, name, n)
  {
    hide Resolved;
    var k :| 2 <= k < |t[d].value.entries| && FirstSlot(t[d].value.entries, k)
             && t'[d] == WithEntry(t, d, k, Some(Entry(n, name)))[d];
    ResolvesNew(t, t', d, k, Entry(n, name));
    ResolvedWith(t, t', d, k, Some(Entry(n, name)), name);
    forall x: nat, y: string | !(x == d && y == name) && x != n
      ensures Resolved(t', x, y) == Resolved(t, x, y)
    {
      if x != d { ResolvedSame(t, t', x); }
    }
  }

  lemma ResolvesNew(t: Table, t': Table, d: nat, k: nat, e: Entry)
    requires IsDir(t, d) && IsDir(t', d) && k < |t[d].value.entries|
    requires t'[d].value.entries == t[d].value.entries[k := Some(e)] && Absent(t[d].value.entries, e.name)
    ensures Resolved(t', d, e.name) == Some(e.ino)
  {
    FindNew(t[d].value.entries, k, e);
  }

  lemma LinkedNames(t: Table, t': Table, d: nat, k: nat, n: nat, name: string)
    requires IsDir(t, d) && IsInode(t, n) && k < |t[d].value.entries| && t[d].value.entries[k].None?
    requires Absent(t[d].value.entries, name)
    requires t' == WithEntry(WithLinks(t, n, 1), d, k, Some(Entry(n, name)))
    ensures Resolved(t', d, name) == Some(n)
    ensures forall x: nat, y: string :: !(x == d && y == name) ==> Resolved(t', x, y) == Resolved(t, x, y)
  {
    hide Resolved;
    ResolvesNew(t, t', d, k, Entry(n, name));
    ResolvedWith(t, t', d, k, Some(Entry(n, name)), name);
    forall x: nat, y: string | !(x == d && y == name)
      ensures Resolved(t', x, y) == Resolved(t, x, y)
    {
      if x != d { ResolvedSame(t, t', x); }
    }
  }

  /** The entry in slot `k` of `d`, which named `n`, is gone. */
  ghost predicate Removed(t: Table, t': Table, d: nat, k: nat, n: nat) {
    && Used(t, d, k) && EntryAt(t, d, k).ino == n && n != d && |t'| == |t| && n < |t|
    && t'[d] == WithEntry(t, d, k, None)[d] && (t'[n].None? || SameBut(t[n], t'[n]))
    && forall m :: 0 <= m < |t| && m != n && m != d ==> t'[m] == t[m]
  }

  /** Links counted before or after do not matter. */
  lemma RemovedFrom(t: Table, mid: Table, t': Table, d: nat, k: nat, n: nat)
    requires Removed(mid, t', d, k, n) && IsInode(t, n) && (mid == t || mid == WithLinks(t, n, 1))
    ensures Removed(t, t', d, k, n)
  {
  }

  lemma RemovedThen(t: Table, mid: Table, t': Table, d: nat, k: nat, n: nat)
    requires Used(t, d, k) && EntryAt(t, d, k).ino == n && IsInode(t, n) && n != d
    requires mid == WithLinks(WithEntry(t, d, k, None), n, -1) && |t'| == |mid|
    requires t'[n].None? || t'[n] == mid[n] || t' == WithLinks(mid, n, -1)
    requires forall m :: 0 <= m < |mid| && m != n ==> t'[m] == mid[m]
    ensures Removed(t, t', d, k, n)
  {
  }

  lemma RemovedNames(t: Table, core: map<nat, nat>, t': Table, d: nat, k: nat, n: nat, name: string)
    requires RamfsLinks.Ok(t, core, None) && Removed(t, t', d, k, n) && EntryAt(t, d, k).name == name
    ensures Resolved(t', d, name) == None && Renamed(t, t', d, name, n)
    ensures !IsDir(t, n) ==> forall y: string :: Resolved(t', n, y) == Resolved(t, n, y)
  {
    hide Resolved, Names;
    ResolvesGone(t, t', d, k);
    ResolvedWith(t, t', d, k, None, name);
    forall x: nat, y: string | !(x == d && y == name) && x != n
      ensures Resolved(t', x, y) == Resolved(t, x, y)
    {
      if x != d { ResolvedSame(t, t', x); }
    }
    if !IsDir(t, n) { ResolvedSame(t, t', n); }
  }

  lemma ResolvesGone(t: Table, t': Table, d: nat, k: nat)
    requires Used(t, d, k) && IsDir(t', d) && t'[d].value.entries == t[d].value.entries[k := None]
    requires OneEach(t[d].value.entries)
    ensures Resolved(t', d, EntryAt(t, d, k).name) == None
  {
    FindGone(t[d].value.entries, k);
  }

  // ----- the tree of directories -----

  lemma LinksTree(t: Table, n: nat, k: int)
    requires IsInode(t, n) && IsDir(t, 0)
    ensures Tree(t) ==> Tree(WithLinks(t, n, k))
  {
    hide Tree, Pruned;
    PrunedLinks(t, n, k);
    if Tree(t) { TreePruned(t, WithLinks(t, n, k)); }
  }

  lemma GoneTree(t: Table, n: nat)
    requires IsInode(t, n) && IsDir(t, 0)
    ensures Tree(t) && n != 0 ==> Tree(t[n := None])
  {
    hide Tree;
    if Tree(t) && n != 0 { TreePruned(t, t[n := None]); }
  }

  lemma RemovedTree(t: Table, t': Table, d: nat, k: nat, n: nat)
    requires Removed(t, t', d, k, n) && IsDir(t, 0) && (t'[n].None? ==> n != 0)
    ensures Tree(t) ==> Tree(t')
  {
    hide Tree;
    if Tree(t) { TreePruned(t, t'); }
  }

  /** An entry has been looked up in `t`, and removed. */
  lemma RemovedAll(t: Table, core: map<nat, nat>, mid: Table, t': Table, d: nat, k: nat, n: nat, name: string)
    requires RamfsLinks.Ok(t, core, None) && IsInode(t, n) && (mid == t || mid == WithLinks(t, n, 1))
    requires Removed(mid, t', d, k, n) && Used(t, d, k) && EntryAt(t, d, k).name == name && (t'[n].None? ==> n != 0)
    ensures Removed(t, t', d, k, n) && Resolved(t', d, name) == None && Renamed(t, t', d, name, n)
    ensures !IsDir(t, n) ==> forall y: string :: Resolved(t', n, y) == Resolved(t, n, y)
    ensures Tree(t) ==> Tree(t')
  {
    hide RamfsLinks.Ok, Tree, Resolved, Renamed;
    OkFacts(t, core, None);
    RemovedFrom(t, mid, t', d, k, n);
    RemovedNames(t, core, t', d, k, n, name);
    RemovedTree(t, t', d, k, n);
  }

  lemma EnteredTree(t: Table, core: map<nat, nat>, t': Table, d: nat, n: nat, mode: Mode, name: string)
    requires RamfsLinks.Ok(t, core, None) && Entered(t, t', d, n, mode, name)
    requires mode == Dir ==> t'[n].value.entries == NewEntries(Dir, n, d)
    ensures Tree(t) ==> Tree(t')
  {
    hide Tree, Names, Counted, UnlinkedHollow;
    var k :| 2 <= k < |t[d].value.entries| && FirstSlot(t[d].value.entries, k)
             && t'[d] == WithEntry(t, d, k, Some(Entry(n, name)))[d];
    assert Gained(t, t', d, k, Entry(n, name));
    if Tree(t) {
      if mode == Dir {
        TreeDir(t, t', d, k, Entry(n, name));
      } else {
        TreeEntry(t, t', d, k, Entry(n, name));
      }
    }
  }

  lemma LinkedTree(t: Table, core: map<nat, nat>, t': Table, d: nat, k: nat, n: nat, name: string)
    requires IsDir(t, d) && IsInode(t, n) && 2 <= k < |t[d].value.entries|
    requires t' == WithEntry(WithLinks(t, n, 1), d, k, Some(Entry(n, name))) && (d == 0 || Names(t, d) != {})
    requires RamfsLinks.Ok(t, core, None)
    ensures Tree(t) ==> (Tree(t') <==> (IsDir(t, n) ==> n != 0 && Resolved(t, n, "..") == Some(d)))
  {
    hide Tree, Names, Resolved, Shaped, Counted, Named, InCore, UnlinkedHollow, Up, Gained, WithEntry, WithLinks;
    OkFacts(t, core, None);
    GainedLink(t, t', d, k, n, name);
    if Tree(t) {
      TreeLink(t, t', d, k, Entry(n, name));
      if IsDir(t, n) { UpResolved(t, n); }
    }
  }

  lemma GainedLink(t: Table, t': Table, d: nat, k: nat, n: nat, name: string)
    requires IsDir(t, d) && IsInode(t, n) && 2 <= k < |t[d].value.entries|
    requires t' == WithEntry(WithLinks(t, n, 1), d, k, Some(Entry(n, name)))
    ensures Gained(t, t', d, k, Entry(n, name)) && (IsDir(t', n) <==> IsDir(t, n))
  {
  }

  lemma UpResolved(t: Table, n: nat)
    requires Shaped(t) && IsDir(t, n)
    ensures Resolved(t, n, "..") == Some(Up(t, n)) && Resolved(t, n, ".") == Some(n)
  {
    FindAt(t[n].value.entries, "..", 1);
  }
}
