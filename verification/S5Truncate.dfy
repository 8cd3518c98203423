/** Shortening a file and giving back an inode in the disk tool (tools/fsmaker/api.py).

    Unlike the kernel the tool frees the blocks from the end of the file down, and the indirect block
    only when it frees the first block listed in it. */
module S5Truncate {
  import opened Bytes
  import opened Lists
  import opened S5Blocks
  import opened S5Ownership
  import opened S5Disk

  /** The blocks listed in the indirect block, and that block itself. */
  ghost predicate IsHigh(j: nat) {
    NDIRECT <= j <= INDIRECT
  }

  ghost function High(): set<nat> {
    set j: nat | j <= INDIRECT && IsHigh(j)
  }

  /** The slots of file `n` in `s` have been emptied; the bytes seen through them are zeros now, and
      nothing else has changed for anyone. */
  ghost predicate Emptied(inodes: seq<Inode>, blocks: seq<Block>, inodes': seq<Inode>, blocks': seq<Block>, n: nat,
                          s: set<nat>)
    requires Shaped(inodes) && Shaped(inodes')
  {
    OneInode(inodes, inodes', n) && Cut(inodes, blocks, inodes', blocks', n, s)
  }

  ghost predicate Cut(inodes: seq<Inode>, blocks: seq<Block>, inodes': seq<Inode>, blocks': seq<Block>, n: nat,
                      s: set<nat>)
    requires Shaped(inodes) && Shaped(inodes')
  {
    && |inodes'| == |inodes| && |blocks'| == |blocks|
    && (forall m, j :: 0 <= m < |inodes| && 0 <= j <= INDIRECT ==>
          Slot(inodes', blocks', m, j) == if m == n && j in s then 0 else Slot(inodes, blocks, m, j))
    && (forall m, off :: 0 <= m < |inodes| && 0 <= off < MAX_FILE_SIZE ==>
          ByteAt(inodes', blocks', m, off) ==
                if m == n && off / BLOCK_SIZE in s then 0 else ByteAt(inodes, blocks, m, off))
  }

  lemma EmptiedThen(inodes: seq<Inode>, blocks: seq<Block>, mid: seq<Inode>, bmid: seq<Block>, inodes': seq<Inode>,
                    blocks': seq<Block>, n: nat, s: set<nat>, t: set<nat>)
    requires Shaped(inodes) && Shaped(mid) && Shaped(inodes')
    requires Emptied(inodes, blocks, mid, bmid, n, s) && Emptied(mid, bmid, inodes', blocks', n, t)
    ensures Emptied(inodes, blocks, inodes', blocks', n, s + t)
  {
    hide Slot, ByteAt;
    forall m, j | 0 <= m < |inodes| && 0 <= j <= INDIRECT
      ensures Slot(inodes', blocks', m, j) == if m == n && j in s + t then 0 else Slot(inodes, blocks, m, j)
    {
      assert Slot(mid, bmid, m, j) == if m == n && j in s then 0 else Slot(inodes, blocks, m, j);
    }
    forall m, off | 0 <= m < |inodes| && 0 <= off < MAX_FILE_SIZE
      ensures ByteAt(inodes', blocks', m, off) ==
                if m == n && off / BLOCK_SIZE in s + t then 0 else ByteAt(inodes, blocks, m, off)
    {
      assert ByteAt(mid, bmid, m, off) == if m == n && off / BLOCK_SIZE in s then 0 else ByteAt(inodes, blocks, m, off);
    }
  }

  /** Slots that were empty. */
  lemma EmptiedNone(inodes: seq<Inode>, blocks: seq<Block>, n: nat, s: set<nat>)
    requires Shaped(inodes) && n < |inodes| && forall j :: j in s && j <= INDIRECT ==> Slot(inodes, blocks, n, j) == 0
    ensures Emptied(inodes, blocks, inodes, blocks, n, s)
  {
    hide Slot;
  }

  /** Emptying slots, and changing blocks that are in none of the slots left. */
  lemma EmptiedBy(inodes: seq<Inode>, blocks: seq<Block>, inodes': seq<Inode>, blocks': seq<Block>, n: nat, s: set<nat>)
    requires Shaped(inodes) && Shaped(inodes') && OneInode(inodes, inodes', n) && DataKept(inodes, blocks, blocks')
    requires forall m, j :: 0 <= m < |inodes| && 0 <= j <= INDIRECT ==>
               Slot(inodes', blocks', m, j) == if m == n && j in s then 0 else Slot(inodes, blocks, m, j)
    ensures Emptied(inodes, blocks, inodes', blocks', n, s)
  {
    hide Slot;
    forall m, off | 0 <= m < |inodes| && 0 <= off < MAX_FILE_SIZE
      ensures ByteAt(inodes', blocks', m, off) ==
                if m == n && off / BLOCK_SIZE in s then 0 else ByteAt(inodes, blocks, m, off)
    {
      var j := off / BLOCK_SIZE;
      assert Slot(inodes', blocks', m, j) == if m == n && j in s then 0 else Slot(inodes, blocks, m, j);
    }
  }

  /** A push after the slots have been emptied is not seen. */
  lemma EmptiedPushed(inodes: seq<Inode>, blocks: seq<Block>, inodes': seq<Inode>, blocks1: seq<Block>,
                      blocks': seq<Block>, n: nat, s: set<nat>)
    requires Shaped(inodes) && Shaped(inodes') && Emptied(inodes, blocks, inodes', blocks1, n, s)
    requires SameSlots(inodes', blocks1, blocks') && SameBytes(inodes', blocks1, inodes', blocks')
             && |blocks'| == |blocks1|
    ensures Emptied(inodes, blocks, inodes', blocks', n, s)
  {
    hide Slot, ByteAt;
    forall m, off | 0 <= m < |inodes| && 0 <= off < MAX_FILE_SIZE
      ensures ByteAt(inodes', blocks', m, off) ==
                if m == n && off / BLOCK_SIZE in s then 0 else ByteAt(inodes, blocks, m, off)
    {
      assert ByteAt(inodes', blocks', m, off) == ByteAt(inodes', blocks1, m, off);
    }
  }

  // ----- one slot -----

  lemma DirectEmptied(inodes: seq<Inode>, f: Free, blocks: seq<Block>, st: seq<Word>, n: nat, i: nat)
    requires Owns(inodes, blocks, st) && Holds(f, blocks, st) && n < |inodes| && IsFile(inodes[n]) && i < NDIRECT
    requires inodes[n].direct[i] != 0
    ensures var b := inodes[n].direct[i];
            var inodes' := inodes[n := inodes[n].(direct := inodes[n].direct[i := 0])];
            && 0 < b < |blocks| && b != NONE && b !in st && Shaped(inodes')
            && var (f', blocks') := Pushed(f, blocks, b);
               Owns(inodes', blocks', st + [b]) && Emptied(inodes, blocks, inodes', blocks', n, {i})
  {
    hide Slot, ByteAt, SetWords, Unowned, SlotsBut, Chain, DataKept, Emptied;
    var b := inodes[n].direct[i];
    var inodes' := inodes[n := inodes[n].(direct := inodes[n].direct[i := 0])];
    DirectSlot(inodes, blocks, n, i);
    LinkDirect(inodes, blocks, n, i, 0);
    OwnsLess(inodes, blocks, inodes', st, n, i);
    DataKeptRefl(inodes, blocks);
    ButEmptied(inodes, blocks, inodes', blocks, n, i);
    OwnsPush(inodes', f, blocks, st, b);
    var (f', blocks') := Pushed(f, blocks, b);
    EmptiedPushed(inodes, blocks, inodes', blocks, blocks', n, {i});
  }

  lemma ButEmptied(inodes: seq<Inode>, blocks: seq<Block>, inodes': seq<Inode>, blocks': seq<Block>, n: nat, i: nat)
    requires Shaped(inodes) && Shaped(inodes') && n < |inodes| && i <= INDIRECT && OneInode(inodes, inodes', n)
    requires SlotsBut(inodes, blocks, inodes', blocks', n, i, 0) && DataKept(inodes, blocks, blocks')
    ensures Emptied(inodes, blocks, inodes', blocks', n, {i})
  {
    hide Slot, ByteAt;
    EmptiedBy(inodes, blocks, inodes', blocks', n, {i});
  }

  /** The tool frees the block first and takes it out of the indirect block then; the order does not
      matter, since the two are different blocks. */
  lemma PushedElsewhere(f: Free, blocks: seq<Block>, b: Word, d: Word, x: Block)
    requires |f.fb| == FNODE && f.nfree < FNODE && b < |blocks| && d < |blocks| && b != d
    ensures Pushed(f, blocks[d := x], b) == (Pushed(f, blocks, b).0, Pushed(f, blocks, b).1[d := x])
    ensures Pushed(f, blocks, b).1[d] == blocks[d]
  {
    hide SetWords;
    var y := SetWords(blocks[b], f.fb);
    assert blocks[d := x][b := y] == blocks[b := y][d := x];
  }

  lemma EntryEmptied(inodes: seq<Inode>, f: Free, blocks: seq<Block>, st: seq<Word>, n: nat, k: nat)
    requires Owns(inodes, blocks, st) && Holds(f, blocks, st) && n < |inodes| && IsFile(inodes[n])
             && NDIRECT <= k < INDIRECT
    requires Slot(inodes, blocks, n, k) != 0
    ensures var b, d := Slot(inodes, blocks, n, k), inodes[n].indirect;
            && 0 < b < |blocks| && b != NONE && b !in st && 0 < d < |blocks| && d != b && d !in st
            && |Pushed(f, blocks, b).1| == |blocks| && Pushed(f, blocks, b).1[d] == blocks[d]
            && var blocks' := Pushed(f, blocks, b).1[d := SetWord(blocks[d], k - NDIRECT, 0)];
               Owns(inodes, blocks', st + [b]) && Emptied(inodes, blocks, inodes, blocks', n, {k})
  {
    hide ByteAt, SetWords, SetWord, WordAt, Unowned, SlotsBut, Chain, DataKept, Emptied, Apart;
    var b, d := Slot(inodes, blocks, n, k), inodes[n].indirect;
    NoIndirect(inodes, blocks, n);
    EntryApart(inodes, blocks, st, n, k);
    var x := SetWord(blocks[d], k - NDIRECT, 0);
    var blocks1 := blocks[d := x];
    EntryUnlinked(inodes, blocks, st, n, k);
    HoldsFrame(f, blocks, st, d, x);
    OwnsPush(inodes, f, blocks1, st, b);
    PushedElsewhere(f, blocks, b, d, x);
    EmptiedPushed(inodes, blocks, inodes, blocks1, Pushed(f, blocks1, b).1, n, {k});
  }

  lemma EntryApart(inodes: seq<Inode>, blocks: seq<Block>, st: seq<Word>, n: nat, k: nat)
    requires Owns(inodes, blocks, st) && n < |inodes| && IsFile(inodes[n]) && NDIRECT <= k < INDIRECT
             && Slot(inodes, blocks, n, k) != 0
    ensures var b, d := Slot(inodes, blocks, n, k), inodes[n].indirect;
            0 < b < |blocks| && b !in st && 0 < d < |blocks| && d != b && d !in st && b != NONE
  {
    hide WordAt, NoDup;
    assert Slot(inodes, blocks, n, INDIRECT) == inodes[n].indirect;
  }

  lemma EntryUnlinked(inodes: seq<Inode>, blocks: seq<Block>, st: seq<Word>, n: nat, k: nat)
    requires Owns(inodes, blocks, st) && n < |inodes| && IsFile(inodes[n]) && NDIRECT <= k < INDIRECT
    requires Slot(inodes, blocks, n, k) != 0 && 0 < inodes[n].indirect < |blocks|
    ensures var b, d := Slot(inodes, blocks, n, k), inodes[n].indirect;
            var blocks1 := blocks[d := SetWord(blocks[d], k - NDIRECT, 0)];
            && Owns(inodes, blocks1, st) && Unowned(inodes, blocks1, b)
            && Emptied(inodes, blocks, inodes, blocks1, n, {k})
  {
    hide Slot, ByteAt, SetWord, WordAt, DataKept, Emptied;
    var d := inodes[n].indirect;
    var blocks1 := blocks[d := SetWord(blocks[d], k - NDIRECT, 0)];
    NoIndirect(inodes, blocks, n);
    LinkEntry(inodes, blocks, st, n, k, 0);
    IndirectNotData(inodes, blocks, st, n, SetWord(blocks[d], k - NDIRECT, 0));
    ButEmptied(inodes, blocks, inodes, blocks1, n, k);
    assert SlotsBut(inodes, blocks, inodes, blocks1, n, k, 0);
    ButOwns(inodes, blocks, blocks1, st, n, k);
  }

  lemma ButOwns(inodes: seq<Inode>, blocks: seq<Block>, blocks': seq<Block>, st: seq<Word>, n: nat, k: nat)
    requires Owns(inodes, blocks, st) && n < |inodes| && k <= INDIRECT
             && SlotsBut(inodes, blocks, inodes, blocks', n, k, 0)
    requires Slot(inodes, blocks, n, k) != 0
    ensures Owns(inodes, blocks', st) && Unowned(inodes, blocks', Slot(inodes, blocks, n, k))
  {
    hide Slot, NoDup;
  }

  /** The indirect block goes, with whatever it still lists. */
  lemma IndirectEmptied(inodes: seq<Inode>, f: Free, blocks: seq<Block>, st: seq<Word>, n: nat)
    requires Owns(inodes, blocks, st) && Holds(f, blocks, st) && n < |inodes| && IsFile(inodes[n])
             && inodes[n].indirect != 0
    ensures var d := inodes[n].indirect;
            var inodes' := inodes[n := inodes[n].(indirect := 0)];
            && 0 < d < |blocks| && d != NONE && d !in st && Shaped(inodes')
            && var (f', blocks') := Pushed(f, blocks, d);
               Owns(inodes', blocks', st + [d]) && Emptied(inodes, blocks, inodes', blocks', n, High())
  {
    hide Slot, ByteAt, SetWords, Unowned, Chain, Emptied, DataKept;
    var d := inodes[n].indirect;
    var inodes' := inodes[n := inodes[n].(indirect := 0)];
    NoIndirect(inodes, blocks, n);
    DetachSlots(inodes, blocks, n);
    DetachOwns(inodes, blocks, inodes', st, n);
    DetachFrees(inodes, blocks, inodes', st, n, INDIRECT);
    DataKeptRefl(inodes, blocks);
    assert forall j: nat :: j in High() <==> IsHigh(j);
    EmptiedBy(inodes, blocks, inodes', blocks, n, High());
    OwnsPush(inodes', f, blocks, st, d);
    EmptiedPushed(inodes, blocks, inodes', blocks, Pushed(f, blocks, d).1, n, High());
  }

  /** What the round for slot `k` frees. */
  ghost function FreedAt(inodes: seq<Inode>, blocks: seq<Block>, n: nat, k: nat): seq<Word>
    requires Shaped(inodes) && n < |inodes|
  {
    if k >= INDIRECT || Slot(inodes, blocks, n, k) == 0 then []
    else [Slot(inodes, blocks, n, k)] + if k == NDIRECT then [Slot(inodes, blocks, n, INDIRECT)] else []
  }

  /** The slots that the round for slot `k` empties. */
  ghost function EmptiedAt(inodes: seq<Inode>, blocks: seq<Block>, n: nat, k: nat): set<nat>
    requires Shaped(inodes) && n < |inodes|
  {
    {k} + if k == NDIRECT && Slot(inodes, blocks, n, k) != 0 then High() else {}
  }

  /** One round of the loop, for a direct block. */
  method FreeDirectSlot(disk: Simdisk, n: nat, k: nat, b: Word)
    requires disk.Valid() && n < |disk.inodes| && IsFile(disk.inodes[n]) && k < NDIRECT
    requires Shaped(disk.inodes) && b == disk.inodes[n].direct[k] && b != 0
    modifies disk`nfree, disk`fb, disk`blocks, disk`stack, disk`inodes
    ensures disk.Valid() && Shaped(disk.inodes) && disk.stack == old(disk.stack) + [b]
    ensures Emptied(old(disk.inodes), old(disk.blocks), disk.inodes, disk.blocks, n, {k})
  {
    hide Owns, Holds, FreeInodes, Slot, ByteAt, Emptied, Pushed;
    var inodes' := disk.inodes[n := disk.inodes[n].(direct := disk.inodes[n].direct[k := 0])];
    disk.HoldsInodes();
    DirectEmptied(disk.inodes, Free(disk.nfree, disk.fb), disk.blocks, disk.stack, n, k);
    InodeKept(disk.inodes, disk.freeInode, disk.ifree, n, inodes'[n]);
    disk.FreeBlock(b);
    disk.inodes := inodes';
  }

  /** For a block listed in the indirect block, without the indirect block itself. */
  method FreeEntrySlot(disk: Simdisk, n: nat, k: nat, b: Word)
    requires disk.Valid() && n < |disk.inodes| && IsFile(disk.inodes[n]) && NDIRECT <= k < INDIRECT
    requires Shaped(disk.inodes) && b == Slot(disk.inodes, disk.blocks, n, k) && b != 0
    modifies disk`nfree, disk`fb, disk`blocks, disk`stack
    ensures disk.Valid() && disk.stack == old(disk.stack) + [b]
    ensures Emptied(disk.inodes, old(disk.blocks), disk.inodes, disk.blocks, n, {k})
  {
    hide Owns, Holds, FreeInodes, Slot, ByteAt, Emptied, SetWord;
    disk.FreeFacts();
    disk.HoldsInodes();
    EntryEmptied(disk.inodes, Free(disk.nfree, disk.fb), disk.blocks, disk.stack, n, k);
    disk.FreeBlock(b);
    var d := disk.inodes[n].indirect;
    HoldsFrame(Free(disk.nfree, disk.fb), disk.blocks, disk.stack, d, SetWord(disk.blocks[d], k - NDIRECT, 0));
    disk.blocks := disk.blocks[d := SetWord(disk.blocks[d], k - NDIRECT, 0)];
  }

  method DropIndirect(disk: Simdisk, n: nat)
    requires disk.Valid() && n < |disk.inodes| && IsFile(disk.inodes[n]) && disk.inodes[n].indirect != 0
    modifies disk`nfree, disk`fb, disk`blocks, disk`stack, disk`inodes
    ensures disk.Valid() && Shaped(disk.inodes) && Shaped(old(disk.inodes))
    ensures disk.stack == old(disk.stack) + [old(disk.inodes)[n].indirect]
    ensures Emptied(old(disk.inodes), old(disk.blocks), disk.inodes, disk.blocks, n, High())
  {
    hide Owns, Holds, FreeInodes, Slot, ByteAt, Emptied, Pushed, High;
    disk.FreeFacts();
    disk.HoldsInodes();
    var d := disk.inodes[n].indirect;
    var inodes' := disk.inodes[n := disk.inodes[n].(indirect := 0)];
    IndirectEmptied(disk.inodes, Free(disk.nfree, disk.fb), disk.blocks, disk.stack, n);
    InodeKept(disk.inodes, disk.freeInode, disk.ifree, n, inodes'[n]);
    disk.FreeBlock(d);
    disk.inodes := inodes';
  }

  /** One round of the loop of `Inode.truncate`. */
  method FreeSlot(disk: Simdisk, n: nat, k: nat)
    requires disk.Valid() && n < |disk.inodes| && IsFile(disk.inodes[n]) && k < INDIRECT
    modifies disk`nfree, disk`fb, disk`blocks, disk`stack, disk`inodes
    ensures disk.Valid() && Shaped(disk.inodes) && Shaped(old(disk.inodes))
    ensures disk.stack == old(disk.stack) + FreedAt(old(disk.inodes), old(disk.blocks), n, k)
    ensures Emptied(old(disk.inodes), old(disk.blocks), disk.inodes, disk.blocks, n,
              EmptiedAt(old(disk.inodes), old(disk.blocks), n, k))
  {
    hide Owns, Holds, FreeInodes, Slot, ByteAt, Emptied, High;
    ghost var inodes0, blocks0 := disk.inodes, disk.blocks;
    var b := disk.LookUp(n, k);
    assert b == 0 || k != NDIRECT ==> EmptiedAt(inodes0, blocks0, n, k) == {k};
    if b == 0 {
      EmptiedNone(disk.inodes, disk.blocks, n, {k});
    } else if k < NDIRECT {
      DirectSlot(disk.inodes, disk.blocks, n, k);
      FreeDirectSlot(disk, n, k, b);
    } else {
      NoIndirect(disk.inodes, disk.blocks, n);
      disk.HoldsInodes();
      IndirectThere(disk.inodes, disk.blocks, n, k);
      FreeEntrySlot(disk, n, k, b);
      if k == NDIRECT {
        ghost var mid, bmid := disk.inodes, disk.blocks;
        DropIndirect(disk, n);
        EmptiedThen(inodes0, blocks0, mid, bmid, disk.inodes, disk.blocks, n, {k}, High());
      }
    }
  }

  lemma IndirectThere(inodes: seq<Inode>, blocks: seq<Block>, n: nat, k: nat)
    requires Shaped(inodes) && n < |inodes| && IsFile(inodes[n]) && NDIRECT <= k < INDIRECT
             && Slot(inodes, blocks, n, k) != 0
    ensures inodes[n].indirect != 0
  {
  }

  // ----- shortening a file -----

  /** The file has a block in the first slot of the indirect block, and the range includes that slot. */
  ghost predicate Drops(inodes: seq<Inode>, blocks: seq<Block>, n: nat, lo: nat, last: nat)
    requires Shaped(inodes) && n < |inodes|
  {
    lo <= NDIRECT <= last && Slot(inodes, blocks, n, NDIRECT) != 0
  }

  /** What the rounds from slot `last` down to slot `lo` free, and the slots they empty. */
  ghost function Freed(inodes: seq<Inode>, blocks: seq<Block>, n: nat, lo: nat, last: nat): seq<Word>
    requires Shaped(inodes) && n < |inodes|
    decreases last - lo
  {
    if lo > last then [] else Freed(inodes, blocks, n, lo + 1, last) + FreedAt(inodes, blocks, n, lo)
  }

  ghost function Gone(inodes: seq<Inode>, blocks: seq<Block>, n: nat, lo: nat, last: nat): set<nat>
    requires Shaped(inodes) && n < |inodes|
    decreases last - lo
  {
    if lo > last then {}
    else Gone(inodes, blocks, n, lo + 1, last) + if lo < INDIRECT then EmptiedAt(inodes, blocks, n, lo) else {}
  }

  lemma {:induction false} GoneSlots(inodes: seq<Inode>, blocks: seq<Block>, n: nat, lo: nat, last: nat, j: nat)
    requires Shaped(inodes) && n < |inodes|
    ensures j in Gone(inodes, blocks, n, lo, last) <==>
            (lo <= j <= last && j < INDIRECT) || (Drops(inodes, blocks, n, lo, last) && IsHigh(j))
    decreases last - lo
  {
    hide Slot;
    if lo <= last {
      GoneSlots(inodes, blocks, n, lo + 1, last, j);
    }
  }

  /** Slot `i` of the file gets its block back to the free list. */
  ghost predicate Returned(inodes: seq<Inode>, blocks: seq<Block>, n: nat, lo: nat, last: nat, i: nat)
    requires Shaped(inodes) && n < |inodes|
  {
    if i == INDIRECT then Drops(inodes, blocks, n, lo, last) else lo <= i <= last
  }

  lemma {:induction false} FreedBlocks(inodes: seq<Inode>, blocks: seq<Block>, st: seq<Word>, n: nat, lo: nat,
                                       last: nat, i: nat)
    requires Owns(inodes, blocks, st) && n < |inodes| && i <= INDIRECT && Slot(inodes, blocks, n, i) != 0
    ensures Slot(inodes, blocks, n, i) in Freed(inodes, blocks, n, lo, last) <==>
              Returned(inodes, blocks, n, lo, last, i)
    decreases last - lo
  {
    hide Slot, NoDup;
    if lo <= last {
      FreedBlocks(inodes, blocks, st, n, lo + 1, last, i);
      FreedHere(inodes, blocks, st, n, lo, i);
    }
  }

  lemma FreedHere(inodes: seq<Inode>, blocks: seq<Block>, st: seq<Word>, n: nat, k: nat, i: nat)
    requires Owns(inodes, blocks, st) && n < |inodes| && i <= INDIRECT && Slot(inodes, blocks, n, i) != 0
    ensures Slot(inodes, blocks, n, i) in FreedAt(inodes, blocks, n, k) <==>
            (i == k && k < INDIRECT) || (i == INDIRECT && k == NDIRECT && Slot(inodes, blocks, n, k) != 0)
  {
    hide Slot, NoDup;
    var w := Slot(inodes, blocks, n, i);
    if k < INDIRECT && Slot(inodes, blocks, n, k) != 0 {
      assert Slot(inodes, blocks, n, k) == w ==> i == k;
      assert Slot(inodes, blocks, n, INDIRECT) == w ==> i == INDIRECT;
    }
  }

  /** Where the loop stands after the round for slot `lo`. */
  ghost predicate Truncating(inodes0: seq<Inode>, blocks0: seq<Block>, st0: seq<Word>, inodes: seq<Inode>,
                             blocks: seq<Block>, st: seq<Word>, n: nat, lo: nat, last: nat)
  {
    && Shaped(inodes0) && Shaped(inodes) && n < |inodes0|
    && st == st0 + Freed(inodes0, blocks0, n, lo, last)
    && Emptied(inodes0, blocks0, inodes, blocks, n, Gone(inodes0, blocks0, n, lo, last))
  }

  lemma TruncateStart(inodes: seq<Inode>, blocks: seq<Block>, st: seq<Word>, n: nat, last: nat)
    requires Shaped(inodes) && n < |inodes|
    ensures Truncating(inodes, blocks, st, inodes, blocks, st, n, last + 1, last)
  {
    hide Emptied;
    EmptiedNone(inodes, blocks, n, {});
    assert st + [] == st;
  }

  lemma TruncateSkip(inodes0: seq<Inode>, blocks0: seq<Block>, st0: seq<Word>, inodes: seq<Inode>, blocks: seq<Block>,
                     st: seq<Word>, n: nat, k: nat, last: nat)
    requires Truncating(inodes0, blocks0, st0, inodes, blocks, st, n, k + 1, last) && INDIRECT <= k <= last
    ensures Truncating(inodes0, blocks0, st0, inodes, blocks, st, n, k, last)
  {
    hide Emptied;
    assert Freed(inodes0, blocks0, n, k, last) == Freed(inodes0, blocks0, n, k + 1, last);
    assert Gone(inodes0, blocks0, n, k, last) == Gone(inodes0, blocks0, n, k + 1, last);
  }

  lemma TruncateRound(inodes0: seq<Inode>, blocks0: seq<Block>, st0: seq<Word>, mid: seq<Inode>, bmid: seq<Block>,
                      stmid: seq<Word>,
                      inodes: seq<Inode>, blocks: seq<Block>, st: seq<Word>, n: nat, k: nat, last: nat)
    requires Truncating(inodes0, blocks0, st0, mid, bmid, stmid, n, k + 1, last) && k <= last && k < INDIRECT
             && n < |mid|
    requires Shaped(inodes) && st == stmid + FreedAt(mid, bmid, n, k)
             && Emptied(mid, bmid, inodes, blocks, n, EmptiedAt(mid, bmid, n, k))
    ensures Truncating(inodes0, blocks0, st0, inodes, blocks, st, n, k, last)
  {
    hide Slot, ByteAt, OneInode, FreedAt, EmptiedAt;
    GoneSlots(inodes0, blocks0, n, k + 1, last, k);
    GoneSlots(inodes0, blocks0, n, k + 1, last, INDIRECT);
    assert Slot(mid, bmid, n, k) == Slot(inodes0, blocks0, n, k);
    assert k == NDIRECT ==> Slot(mid, bmid, n, INDIRECT) == Slot(inodes0, blocks0, n, INDIRECT);
    RoundSame(inodes0, blocks0, mid, bmid, n, k);
    hide Emptied;
    EmptiedThen(inodes0, blocks0, mid, bmid, inodes, blocks, n, Gone(inodes0, blocks0, n, k + 1, last),
          EmptiedAt(mid, bmid, n, k));
    assert (st0 + Freed(inodes0, blocks0, n, k + 1, last)) + FreedAt(inodes0, blocks0, n, k) ==
           st0 + (Freed(inodes0, blocks0, n, k + 1, last) + FreedAt(inodes0, blocks0, n, k));
  }

  lemma RoundSame(inodes: seq<Inode>, blocks: seq<Block>, mid: seq<Inode>, bmid: seq<Block>, n: nat, k: nat)
    requires Shaped(inodes) && Shaped(mid) && n < |inodes| && n < |mid| && k < INDIRECT
             && Slot(mid, bmid, n, k) == Slot(inodes, blocks, n, k)
    requires k == NDIRECT ==> Slot(mid, bmid, n, INDIRECT) == Slot(inodes, blocks, n, INDIRECT)
    ensures FreedAt(mid, bmid, n, k) == FreedAt(inodes, blocks, n, k)
            && EmptiedAt(mid, bmid, n, k) == EmptiedAt(inodes, blocks, n, k)
  {
    hide Slot;
  }

  lemma TruncateFacts(inodes0: seq<Inode>, blocks0: seq<Block>, st0: seq<Word>, inodes: seq<Inode>, blocks: seq<Block>,
                      st: seq<Word>, n: nat, lo: nat, last: nat)
    requires Truncating(inodes0, blocks0, st0, inodes, blocks, st, n, lo, last)
    ensures Shaped(inodes) && |inodes| == |inodes0| && n < |inodes| && inodes[n].kind == inodes0[n].kind
            && inodes[n].size == inodes0[n].size
  {
  }

  /** The new size, on top of the rounds. */
  lemma TruncateEnd(inodes0: seq<Inode>, blocks0: seq<Block>, st0: seq<Word>, inodes: seq<Inode>, blocks: seq<Block>,
                    st: seq<Word>, n: nat, lo: nat, last: nat, size: Word)
    requires Truncating(inodes0, blocks0, st0, inodes, blocks, st, n, lo, last) && n < |inodes|
    ensures var inodes' := inodes[n := inodes[n].(size := size)];
            && Shaped(inodes') && Resized(inodes0, inodes', n, size) && st == st0 + Freed(inodes0, blocks0, n, lo, last)
            && Cut(inodes0, blocks0, inodes', blocks, n, Gone(inodes0, blocks0, n, lo, last))
  {
    hide ByteAt, Slot, Gone, Freed;
    var inodes' := inodes[n := inodes[n].(size := size)];
    SizeSlots(inodes, blocks, n, size);
    forall m, off | 0 <= m < |inodes| && 0 <= off < MAX_FILE_SIZE
      ensures ByteAt(inodes', blocks, m, off) == ByteAt(inodes, blocks, m, off)
    {
      SizeByte(inodes, blocks, n, size, m, off);
    }
  }

  lemma SizeSlots(inodes: seq<Inode>, blocks: seq<Block>, n: nat, size: Word)
    requires Shaped(inodes) && n < |inodes|
    ensures var inodes' := inodes[n := inodes[n].(size := size)];
            Shaped(inodes') && forall m, j :: 0 <= m < |inodes| && 0 <= j <= INDIRECT ==>
                  Slot(inodes', blocks, m, j) == Slot(inodes, blocks, m, j)
  {
    hide WordAt;
  }

  lemma SizeByte(inodes: seq<Inode>, blocks: seq<Block>, n: nat, size: Word, m: nat, off: nat)
    requires Shaped(inodes) && n < |inodes| && m < |inodes| && off < MAX_FILE_SIZE
    ensures var inodes' := inodes[n := inodes[n].(size := size)];
            Shaped(inodes') && ByteAt(inodes', blocks, m, off) == ByteAt(inodes, blocks, m, off)
  {
    hide Slot;
    SizeSlots(inodes, blocks, n, size);
    var j := off / BLOCK_SIZE;
    assert Slot(inodes[n := inodes[n].(size := size)], blocks, m, j) == Slot(inodes, blocks, m, j);
  }

  /** How `Inode.truncate` ends: the file has the size; or it accesses the indirect block past its end, or
      calls a function with an argument missing, both of which raise an error; or it does not end. */
  datatype Ending = Done | PastEnd | BadCall | Endless

  /** `Inode.truncate`.  A size that takes more blocks than the file reaches never works. */
  method Truncate(disk: Simdisk, n: nat, size: Word) returns (r: Ending)
    requires disk.Valid() && n < |disk.inodes| && IsFile(disk.inodes[n])
    modifies disk`nfree, disk`fb, disk`blocks, disk`stack, disk`inodes
    ensures r != Endless ==> disk.Valid() && Shaped(disk.inodes) && Shaped(old(disk.inodes))
    ensures var last, ind := old(disk.inodes)[n].size / BLOCK_SIZE, old(disk.inodes)[n].indirect;
            && (r == PastEnd <==> last >= INDIRECT && ind != 0 && Ceil(size) != last + 1)
            && (r == BadCall <==> Ceil(size) > last + 1 && last < NDIRECT)
            && (r == Endless <==> Ceil(size) > last + 1 && last >= NDIRECT && !(last >= INDIRECT && ind != 0))
    ensures r == PastEnd || r == BadCall ==> unchanged(disk)
    ensures r == Done ==> Resized(old(disk.inodes), disk.inodes, n, size)
    ensures r == Done ==>
              var last := old(disk.inodes)[n].size / BLOCK_SIZE;
              && disk.stack == old(disk.stack) + Freed(old(disk.inodes), old(disk.blocks), n, Ceil(size), last)
              && Cut(old(disk.inodes), old(disk.blocks), disk.inodes, disk.blocks, n,
                     Gone(old(disk.inodes), old(disk.blocks), n, Ceil(size), last))
  {
    hide Owns, Holds, FreeInodes, Slot, ByteAt, Freed, Gone, FreedAt, EmptiedAt, Truncating, Cut, Emptied;
    disk.FreeFacts();
    ghost var inodes0, blocks0, stack0 := disk.inodes, disk.blocks, disk.stack;
    var target: int := Ceil(size) - 1;
    var curr: int := disk.inodes[n].size / BLOCK_SIZE;
    ghost var last := curr;
    TruncateStart(disk.inodes, disk.blocks, disk.stack, n, last);
    while curr > target
      invariant curr <= last && (target <= last ==> target <= curr) && (target > last ==> curr == last) && disk.Valid()
      invariant Truncating(inodes0, blocks0, stack0, disk.inodes, disk.blocks, disk.stack, n, curr + 1, last)
      invariant curr >= INDIRECT - 1 || curr == last ==> unchanged(disk)
      invariant curr < last && last >= INDIRECT ==> inodes0[n].indirect == 0
      modifies disk`nfree, disk`fb, disk`blocks, disk`stack, disk`inodes
    {
      TruncateFacts(inodes0, blocks0, stack0, disk.inodes, disk.blocks, disk.stack, n, curr + 1, last);
      if curr >= INDIRECT {
        if disk.inodes[n].indirect != 0 {
          return PastEnd;
        }
        TruncateSkip(inodes0, blocks0, stack0, disk.inodes, disk.blocks, disk.stack, n, curr, last);
      } else {
        ghost var mid, bmid, stmid := disk.inodes, disk.blocks, disk.stack;
        FreeSlot(disk, n, curr);
        TruncateRound(inodes0, blocks0, stack0, mid, bmid, stmid, disk.inodes, disk.blocks, disk.stack, n, curr, last);
      }
      curr := curr - 1;
    }
    if curr < target {
      // the second loop, which does not count on and has no way out
      if curr < NDIRECT {
        return BadCall;
      }
      return if curr >= INDIRECT && disk.inodes[n].indirect != 0 then PastEnd else Endless;
    }
    TruncateFacts(inodes0, blocks0, stack0, disk.inodes, disk.blocks, disk.stack, n, curr + 1, last);
    TruncateEnd(inodes0, blocks0, stack0, disk.inodes, disk.blocks, disk.stack, n, curr + 1, last, size);
    SizeUnseen(disk.inodes, disk.blocks, disk.stack, n, size);
    InodeKept(disk.inodes, disk.freeInode, disk.ifree, n, disk.inodes[n].(size := size));
    disk.HoldsInodes();
    disk.inodes := disk.inodes[n := disk.inodes[n].(size := size)];
    r := Done;
  }

  /** What is left of the file is what it was: its first bytes up to the last block kept, and all of
      the other files; the slots that went read as zeros. */
  lemma TruncateKeeps(inodes: seq<Inode>, blocks: seq<Block>, inodes': seq<Inode>, blocks': seq<Block>, n: nat,
                      size: nat, last: nat, m: nat, off: nat)
    requires Shaped(inodes) && Shaped(inodes') && n < |inodes| && m < |inodes| && off < MAX_FILE_SIZE
    requires Cut(inodes, blocks, inodes', blocks', n, Gone(inodes, blocks, n, Ceil(size), last))
    ensures m != n || off < size ==> ByteAt(inodes', blocks', m, off) == ByteAt(inodes, blocks, m, off)
    ensures m == n && Ceil(size) <= off / BLOCK_SIZE <= last ==> ByteAt(inodes', blocks', m, off) == 0
  {
    hide ByteAt, Slot, Gone;
    GoneSlots(inodes, blocks, n, Ceil(size), last, off / BLOCK_SIZE);
    if off < size { assert off / BLOCK_SIZE < Ceil(size); }
  }

  // ----- giving back an inode -----

  /** Nothing of the file lies beyond its size, and the indirect block goes with the first block listed
      in it. */
  ghost predicate Tidy(inodes: seq<Inode>, blocks: seq<Block>, n: nat)
    requires Shaped(inodes) && n < |inodes|
  {
    var last := inodes[n].size / BLOCK_SIZE;
    if inodes[n].size == 0 then forall i :: 0 <= i <= INDIRECT ==> Slot(inodes, blocks, n, i) == 0
    else
      && (forall i :: last < i < INDIRECT ==> Slot(inodes, blocks, n, i) == 0)
      && (Slot(inodes, blocks, n, INDIRECT) != 0 ==> NDIRECT <= last && Slot(inodes, blocks, n, NDIRECT) != 0)
  }

  ghost predicate AllBack(inodes: seq<Inode>, blocks: seq<Block>, n: nat, st: seq<Word>)
    requires Shaped(inodes) && n < |inodes|
  {
    forall i :: 0 <= i <= INDIRECT && Slot(inodes, blocks, n, i) != 0 ==> Slot(inodes, blocks, n, i) in st
  }

  ghost function FreedAll(inodes: seq<Inode>, blocks: seq<Block>, n: nat): seq<Word>
    requires Shaped(inodes) && n < |inodes|
  {
    if inodes[n].size == 0 then [] else Freed(inodes, blocks, n, 0, inodes[n].size / BLOCK_SIZE)
  }

  /** Every block of the file comes back exactly when the file is tidy. */
  lemma BackIffTidy(inodes: seq<Inode>, blocks: seq<Block>, st: seq<Word>, n: nat)
    requires Owns(inodes, blocks, st) && n < |inodes|
    ensures AllBack(inodes, blocks, n, st + FreedAll(inodes, blocks, n)) <==> Tidy(inodes, blocks, n)
  {
    hide Slot, Freed, NoDup;
    var last := inodes[n].size / BLOCK_SIZE;
    forall i | 0 <= i <= INDIRECT && Slot(inodes, blocks, n, i) != 0
      ensures Slot(inodes, blocks, n, i) in st + FreedAll(inodes, blocks, n) <==>
              inodes[n].size != 0 && Returned(inodes, blocks, n, 0, last, i)
    {
      FreedBlocks(inodes, blocks, st, n, 0, last, i);
    }
  }

  /** An inode goes to the front of the free ones, and lets go of what it still owns. */
  lemma InodeDropped(inodes: seq<Inode>, head: Word, list: seq<Word>, blocks: seq<Block>, st: seq<Word>, n: Word)
    requires FreeInodes(inodes, head, list) && NoDup(list) && n < |inodes| && inodes[n].kind != FreeInode
             && inodes[n].number == n
    requires n != NONE && Owns(inodes, blocks, st)
    ensures var inodes' := inodes[n := inodes[n].(kind := FreeInode, size := head)];
            && FreeInodes(inodes', n, [n] + list) && NoDup([n] + list)
            && Shaped(inodes') && Owns(inodes', blocks, st) && Others(inodes, blocks, inodes', blocks, n)
  {
    hide NoDup;
    var inodes' := inodes[n := inodes[n].(kind := FreeInode, size := head)];
    FreeInodesKinds(inodes, head, list);
    FreeInodesFrame(inodes, head, list, n, inodes'[n]);
    NoDupCons(list, n);
    assert ([n] + list)[1..] == list;
    DroppedSlots(inodes, blocks, n, head);
    hide Slot;
    DroppedOwns(inodes, blocks, inodes', st, n);
  }

  lemma DroppedSlots(inodes: seq<Inode>, blocks: seq<Block>, n: nat, head: Word)
    requires Shaped(inodes) && n < |inodes|
    ensures var inodes' := inodes[n := inodes[n].(kind := FreeInode, size := head)];
            Shaped(inodes') && forall m, j :: 0 <= m < |inodes| && 0 <= j <= INDIRECT ==>
                                 Slot(inodes', blocks, m, j) == if m == n then 0 else Slot(inodes, blocks, m, j)
  {
    hide WordAt;
  }

  lemma DroppedOwns(inodes: seq<Inode>, blocks: seq<Block>, inodes': seq<Inode>, st: seq<Word>, n: nat)
    requires Owns(inodes, blocks, st) && Shaped(inodes') && |inodes'| == |inodes|
    requires forall m, j :: 0 <= m < |inodes| && 0 <= j <= INDIRECT ==>
               Slot(inodes', blocks, m, j) == if m == n then 0 else Slot(inodes, blocks, m, j)
    ensures Owns(inodes', blocks, st) && Others(inodes, blocks, inodes', blocks, n)
  {
    hide Slot, NoDup;
    forall m, off | 0 <= m < |inodes| && m != n && 0 <= off < MAX_FILE_SIZE
      ensures ByteAt(inodes', blocks, m, off) == ByteAt(inodes, blocks, m, off)
    {
      assert Slot(inodes', blocks, m, off / BLOCK_SIZE) == Slot(inodes, blocks, m, off / BLOCK_SIZE);
    }
  }

  lemma CutOthers(inodes: seq<Inode>, blocks: seq<Block>, inodes': seq<Inode>, blocks': seq<Block>, n: nat, s: set<nat>)
    requires Shaped(inodes) && Shaped(inodes') && Cut(inodes, blocks, inodes', blocks', n, s)
    ensures Others(inodes, blocks, inodes', blocks', n)
  {
    hide ByteAt, Slot;
  }

  /** `Inode.free`: the inode comes first in the list of free inodes, and all of the blocks of the file
      come back exactly when it is tidy; the others see what they saw.  It fails as `Truncate` does. */
  method ReleaseInode(disk: Simdisk, n: Word) returns (ok: bool)
    requires disk.Valid() && n < |disk.inodes| && n != NONE && disk.inodes[n].kind != FreeInode
             && disk.inodes[n].number == n
    requires disk.inodes[n].size != 0 ==> IsFile(disk.inodes[n])
    modifies disk
    ensures disk.Valid() && Shaped(disk.inodes) && Shaped(old(disk.inodes))
    ensures !ok <==> old(disk.inodes)[n].size / BLOCK_SIZE >= INDIRECT && old(disk.inodes)[n].indirect != 0
    ensures !ok ==> unchanged(disk)
    ensures ok ==> |disk.inodes| == |old(disk.inodes)| && disk.inodes == old(disk.inodes)[n := disk.inodes[n]]
    ensures ok ==> disk.inodes[n].kind == FreeInode
    ensures ok ==> disk.ifree == [n] + old(disk.ifree)
                   && disk.stack == old(disk.stack) + FreedAll(old(disk.inodes), old(disk.blocks), n)
                   && (AllBack(old(disk.inodes), old(disk.blocks), n, disk.stack) <==>
                        Tidy(old(disk.inodes), old(disk.blocks), n))
                   && Others(old(disk.inodes), old(disk.blocks), disk.inodes, disk.blocks, n)
  {
    hide Owns, Holds, FreeInodes, Slot, ByteAt, Freed, Gone, Cut, Others, Tidy, AllBack;
    disk.FreeFacts();
    ghost var inodes0, blocks0 := disk.inodes, disk.blocks;
    OthersRefl(disk.inodes, disk.blocks, n);
    BackIffTidy(disk.inodes, disk.blocks, disk.stack, n);
    if disk.inodes[n].size != 0 {
      var r := Truncate(disk, n, 0);
      if r != Done {
        return false;
      }
      CutOthers(inodes0, blocks0, disk.inodes, disk.blocks, n,
            Gone(inodes0, blocks0, n, 0, inodes0[n].size / BLOCK_SIZE));
    } else {
      assert disk.stack + [] == disk.stack;
    }
    ghost var mid := disk.inodes;
    disk.HoldsInodes();
    InodeDropped(disk.inodes, disk.freeInode, disk.ifree, disk.blocks, disk.stack, n);
    disk.inodes := disk.inodes[n := disk.inodes[n].(kind := FreeInode)];
    disk.inodes := disk.inodes[n := disk.inodes[n].(size := disk.freeInode)];
    assert disk.inodes == mid[n := mid[n].(kind := FreeInode, size := old(disk.freeInode))];
    disk.freeInode := n;
    disk.ifree := [n] + disk.ifree;
    OthersThen(inodes0, blocks0, mid, disk.blocks, disk.inodes, disk.blocks, n);
    ok := true;
  }

  /** `Simdisk.alloc_inode`: no inode exactly when the list is empty, and else its first. */
  method AllocInode(disk: Simdisk) returns (r: Option<Word>)
    requires disk.Valid()
    modifies disk`freeInode, disk`ifree
    ensures disk.Valid() && (r.None? <==> old(disk.ifree) == [])
    ensures r.None? ==> unchanged(disk)
    ensures r.Some? ==> old(disk.ifree) == [r.value] + disk.ifree
  {
    hide Owns, Holds;
    if disk.freeInode == NONE {
      return None;
    }
    var n := disk.freeInode;
    assert disk.ifree == [n] + disk.ifree[1..];
    disk.freeInode := disk.inodes[n].size;
    disk.ifree := disk.ifree[1..];
    r := Some(n);
  }

  // ----- a file whose blocks do not all come back -----

  /** A file with one byte in its thirtieth block and none before it: its indirect block is block 1,
      whose second entry is block 2. */
  ghost function SparseInodes(): seq<Inode> {
    [Inode(Data, 29 * BLOCK_SIZE + 1, 0, 1, NoBlocks(), 1)]
  }

  ghost function SparseBlocks(zeros: Block): seq<Block> {
    [zeros, SetWord(zeros, 1, 2), zeros]
  }

  lemma SparseSlots(i: nat)
    requires i <= INDIRECT
    ensures Shaped(SparseInodes())
    ensures Slot(SparseInodes(), SparseBlocks(Zeros), 0, i) ==
              if i == INDIRECT then 1 else if i == NDIRECT + 1 then 2 else 0
  {
    hide SetWord, WordAt;
    if NDIRECT <= i < INDIRECT {
      WordAfterSet(Zeros, 1, 2, i - NDIRECT);
      ZeroWord(i - NDIRECT);
    }
  }

  /** The indirect block of this file is lost when the inode is freed. */
  lemma SparseLost()
    ensures Owns(SparseInodes(), SparseBlocks(Zeros), [])
    ensures !AllBack(SparseInodes(), SparseBlocks(Zeros), 0, FreedAll(SparseInodes(), SparseBlocks(Zeros), 0))
  {
    hide Slot, FreedAll;
    var inodes, blocks := SparseInodes(), SparseBlocks(Zeros);
    forall i | 0 <= i <= INDIRECT
      ensures Slot(inodes, blocks, 0, i) == if i == INDIRECT then 1 else if i == NDIRECT + 1 then 2 else 0
    {
      SparseSlots(i);
    }
    assert Owns(inodes, blocks, []);
    BackIffTidy(inodes, blocks, [], 0);
    assert [] + FreedAll(inodes, blocks, 0) == FreedAll(inodes, blocks, 0);
  }
}
