/** The directories of ramfs as a tree (kernel/fs/ramfs/ramfs.c): the `..` of a directory names the one
    directory with an entry for it, and leads up to the root. */
module RamfsTree {
  import opened Lists
  import opened RamfsLinks

  /** What `..` of a directory names. */
  ghost function Up(t: Table, d: nat): nat {
    if IsDir(t, d) && |t[d].value.entries| > 1 && t[d].value.entries[1].Some?
    then t[d].value.entries[1].value.ino else d
  }

  ghost predicate Below(t: Table, depth: seq<nat>, d: nat, n: nat) {
    IsDir(t, n) ==> d < |depth| && n < |depth| && Up(t, n) == d && depth[n] == depth[d] + 1
  }

  /** Who names a directory is its `..`, and less deep than it. */
  ghost predicate Ranked(t: Table, depth: seq<nat>) {
    && |depth| == |t| && Up(t, 0) == 0
    && forall d, i :: Used(t, d, i) ==> Below(t, depth, d, EntryAt(t, d, i).ino)
  }

  ghost predicate Tree(t: Table) {
    exists depth :: Ranked(t, depth)
  }

  /** Entries other than the dots, or inodes, may be gone. */
  ghost predicate Pruned(t: Table, t': Table) {
    && |t'| == |t| && IsDir(t', 0)
    && forall m: nat :: IsInode(t', m) ==> IsInode(t, m) && PrunedInode(t[m].value, t'[m].value)
  }

  ghost predicate PrunedInode(a: Inode, b: Inode) {
    && b.mode == a.mode && |b.entries| == |a.entries|
    && forall i :: 0 <= i < |b.entries| ==> b.entries[i] == a.entries[i] || (i >= 2 && b.entries[i].None?)
  }

  lemma PrunedAt(t: Table, t': Table, d: nat)
    requires Pruned(t, t') && IsDir(t', d)
    ensures IsDir(t, d) && Up(t', d) == Up(t, d)
    ensures forall i :: Used(t', d, i) ==> Used(t, d, i) && EntryAt(t', d, i) == EntryAt(t, d, i)
  {
    assert PrunedInode(t[d].value, t'[d].value);
  }

  lemma TreePruned(t: Table, t': Table)
    requires Tree(t) && Pruned(t, t')
    ensures Tree(t')
  {
    hide Up, Pruned;
    var depth :| Ranked(t, depth);
    TableLength(t, t');
    PrunedAt(t, t', 0);
    forall d, i | Used(t', d, i)
      ensures Below(t', depth, d, EntryAt(t', d, i).ino)
    {
      PrunedAt(t, t', d);
      var n := EntryAt(t', d, i).ino;
      assert Below(t, depth, d, n);
      if IsDir(t', n) { PrunedAt(t, t', n); }
    }
    assert Ranked(t', depth);
  }

  lemma TableLength(t: Table, t': Table)
    requires Pruned(t, t')
    ensures |t'| == |t| && IsDir(t', 0)
  {
  }

  lemma PrunedLinks(t: Table, n: nat, k: int)
    requires IsInode(t, n) && IsDir(t, 0)
    ensures Pruned(t, WithLinks(t, n, k))
  {
  }

  /** The directories have gained an entry `e`, and no directory but, at most, the one it names is new. */
  ghost predicate Gained(t: Table, t': Table, d: nat, k: nat, e: Entry) {
    && |t'| == |t| && IsDir(t, d) && 2 <= k < |t[d].value.entries|
    && (forall m: nat :: IsDir(t, m) ==>
          IsDir(t', m) && t'[m].value.entries ==
                          if m == d then t[m].value.entries[k := Some(e)] else t[m].value.entries)
    && (forall m: nat :: IsDir(t', m) && m != e.ino ==> IsDir(t, m))
  }

  lemma GainedAt(t: Table, t': Table, d: nat, k: nat, e: Entry, m: nat)
    requires Gained(t, t', d, k, e) && IsDir(t', m) && (m != e.ino || IsDir(t, m))
    ensures IsDir(t, m) && Up(t', m) == Up(t, m)
    ensures forall i :: Used(t', m, i) ==>
              if m == d && i == k then EntryAt(t', m, i) == e
              else Used(t, m, i) && EntryAt(t', m, i) == EntryAt(t, m, i)
  {
  }

  lemma RootStays(t: Table, t': Table, d: nat, k: nat, e: Entry)
    requires Gained(t, t', d, k, e) && IsDir(t, 0)
    ensures |t'| == |t| && IsDir(t', 0) && Up(t', 0) == Up(t, 0)
  {
    GainedAt(t, t', d, k, e, 0);
  }

  lemma BelowStays(t: Table, t': Table, d: nat, k: nat, e: Entry, depth: seq<nat>, x: nat, i: nat)
    requires Gained(t, t', d, k, e) && Ranked(t, depth) && Used(t', x, i) && !(x == d && i == k)
    requires IsDir(t, x) && (IsDir(t', EntryAt(t', x, i).ino) ==> IsDir(t, EntryAt(t', x, i).ino))
    ensures Used(t, x, i) && EntryAt(t', x, i) == EntryAt(t, x, i) && Below(t', depth, x, EntryAt(t', x, i).ino)
  {
    hide Up, Gained;
    GainedAt(t, t', d, k, e, x);
    var n := EntryAt(t', x, i).ino;
    assert Below(t, depth, x, n);
    if IsDir(t', n) { GainedAt(t, t', d, k, e, n); }
  }

  /** A file is entered, or a directory again where it was. */
  lemma TreeEntry(t: Table, t': Table, d: nat, k: nat, e: Entry)
    requires Tree(t) && Gained(t, t', d, k, e) && IsDir(t, 0) && (IsDir(t', e.ino) ==> IsDir(t, e.ino))
    requires IsDir(t', e.ino) ==> exists i :: Used(t, d, i) && EntryAt(t, d, i).ino == e.ino
    ensures Tree(t')
  {
    hide Up;
    var depth :| Ranked(t, depth);
    RootStays(t, t', d, k, e);
    forall x, i | Used(t', x, i)
      ensures Below(t', depth, x, EntryAt(t', x, i).ino)
    {
      GainedAt(t, t', d, k, e, x);
      if x == d && i == k {
        if IsDir(t', e.ino) {
          var j :| Used(t, d, j) && EntryAt(t, d, j).ino == e.ino;
          assert Below(t, depth, d, e.ino);
          GainedAt(t, t', d, k, e, e.ino);
        }
      } else {
        BelowStays(t, t', d, k, e, depth, x, i);
      }
    }
    assert Ranked(t', depth);
  }

  /** An empty directory that nobody names is entered in its `..`. */
  lemma TreeDir(t: Table, t': Table, d: nat, k: nat, e: Entry)
    requires Tree(t) && Gained(t, t', d, k, e) && IsDir(t, 0)
    requires IsDir(t', e.ino) && e.ino != 0 && e.ino != d && Up(t', e.ino) == d && Hollow(t', e.ino)
    requires forall x, i :: Used(t, x, i) ==> EntryAt(t, x, i).ino != e.ino
    ensures Tree(t')
  {
    hide Up;
    var depth0 :| Ranked(t, depth0);
    var n := e.ino;
    var depth := depth0[n := depth0[d] + 1];
    RootStays(t, t', d, k, e);
    forall x, i | Used(t', x, i)
      ensures Below(t', depth, x, EntryAt(t', x, i).ino)
    {
      assert x != n;
      GainedAt(t, t', d, k, e, x);
      if !(x == d && i == k) {
        BelowStays(t, t', d, k, e, depth0, x, i);
        assert EntryAt(t', x, i).ino != n;
      }
    }
    assert Ranked(t', depth);
  }

  lemma NamedSomewhere(t: Table, n: nat)
    requires Shaped(t)
    ensures Names(t, n) == {} <==> forall x, i :: Used(t, x, i) ==> EntryAt(t, x, i).ino != n
  {
    hide OneEach;
    if Names(t, n) == {} {
      forall x: nat, i: nat | Used(t, x, i)
        ensures EntryAt(t, x, i).ino != n
      {
        assert (x, i) !in Names(t, n);
      }
    } else {
      var p :| p in Names(t, n);
      assert Used(t, p.0, p.1) && EntryAt(t, p.0, p.1).ino == n;
    }
  }

  /** A new name for an inode keeps the tree exactly when it is no directory, or one whose `..` is the
      directory of the new name, other than the root. */
  lemma TreeLink(t: Table, t': Table, d: nat, k: nat, e: Entry)
    requires Shaped(t) && UnlinkedHollow(t) && Tree(t) && Gained(t, t', d, k, e) && IsDir(t, 0)
    requires IsDir(t', e.ino) ==> IsDir(t, e.ino)
    requires d == 0 || Names(t, d) != {}
    ensures Tree(t') <==> (IsDir(t, e.ino) ==> e.ino != 0 && Up(t, e.ino) == d)
  {
    hide Up, Names, Shaped;
    var n := e.ino;
    var depth :| Ranked(t, depth);
    if !IsDir(t, n) {
      TreeEntry(t, t', d, k, e);
    } else if n != 0 && Up(t, n) == d {
      NamedSomewhere(t, n);
      NamedSomewhere(t, d);
      GainedAt(t, t', d, k, e, n);
      if Names(t, n) == {} {
        assert Hollow(t, n);
        assert n != d;
        TreeDir(t, t', d, k, e);
      } else {
        var x, i :| Used(t, x, i) && EntryAt(t, x, i).ino == n;
        assert Below(t, depth, x, n);
        TreeEntry(t, t', d, k, e);
      }
    } else {
      NoTree(t, t', d, k, e);
    }
  }

  lemma NoTree(t: Table, t': Table, d: nat, k: nat, e: Entry)
    requires Gained(t, t', d, k, e) && IsDir(t, 0) && IsDir(t, e.ino) && (e.ino == 0 || Up(t, e.ino) != d)
    ensures !Tree(t')
  {
    hide Up;
    var n := e.ino;
    assert Used(t', d, k) && EntryAt(t', d, k) == e;
    GainedAt(t, t', d, k, e, n);
    forall depth
      ensures !Ranked(t', depth)
    {
      assert Ranked(t', depth) ==> Below(t', depth, d, n);
    }
  }

  /** Directory `d` has an entry for `n`. */
  ghost predicate Holds(t: Table, d: nat, n: nat) {
    exists i :: Used(t, d, i) && EntryAt(t, d, i).ino == n
  }

  /** A directory with a name has a `..` that has an entry for it, and is the root or has a name itself. */
  lemma UpNames(t: Table, d: nat)
    requires Shaped(t) && UnlinkedHollow(t) && Tree(t) && IsDir(t, d) && Names(t, d) != {}
    ensures IsDir(t, Up(t, d)) && Holds(t, Up(t, d), d) && (Up(t, d) == 0 || Names(t, Up(t, d)) != {})
  {
    hide Up, Names, Shaped;
    var depth :| Ranked(t, depth);
    NamedSomewhere(t, d);
    var x, i :| Used(t, x, i) && EntryAt(t, x, i).ino == d;
    assert Below(t, depth, x, d);
    assert x != 0 && Names(t, x) == {} ==> Hollow(t, x);
  }

  ghost predicate Leads(t: Table, path: seq<nat>, d: nat) {
    && path != [] && path[0] == d && path[|path| - 1] == 0
    && forall i :: 0 <= i < |path| - 1 ==> path[i + 1] == Up(t, path[i]) && Holds(t, path[i + 1], path[i])
  }

  /** From every directory with a name the `..`s lead to the root, each to the directory whose entry names
      the one before. */
  lemma RootAbove(t: Table, d: nat)
    requires Shaped(t) && UnlinkedHollow(t) && Tree(t) && IsDir(t, 0) && IsDir(t, d) && (d == 0 || Names(t, d) != {})
    ensures exists path :: Leads(t, path, d)
  {
    hide Up, Names, Shaped, UnlinkedHollow, Leads;
    var depth :| Ranked(t, depth);
    Climb(t, depth, d);
  }

  lemma {:induction false} Climb(t: Table, depth: seq<nat>, d: nat)
    requires Shaped(t) && UnlinkedHollow(t) && Ranked(t, depth) && IsDir(t, 0) && IsDir(t, d)
    requires d == 0 || Names(t, d) != {}
    ensures exists path :: Leads(t, path, d)
    decreases if d < |depth| then depth[d] else 0
  {
    hide Up, Names, Shaped, UnlinkedHollow, Leads;
    if d == 0 {
      RootLeads(t);
    } else {
      assert Tree(t);
      UpNames(t, d);
      var up := Up(t, d);
      var k :| Used(t, up, k) && EntryAt(t, up, k).ino == d;
      assert Below(t, depth, up, d);
      Climb(t, depth, up);
      var path :| Leads(t, path, up);
      LeadsOn(t, path, d);
    }
  }

  lemma RootLeads(t: Table)
    ensures Leads(t, [0], 0)
  {
  }

  lemma LeadsOn(t: Table, path: seq<nat>, d: nat)
    requires Leads(t, path, Up(t, d)) && Holds(t, Up(t, d), d)
    ensures Leads(t, [d] + path, d)
  {
    hide Up, Holds;
  }
}
