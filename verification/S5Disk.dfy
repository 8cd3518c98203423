/** The disk of an S5 file system and the operations on it: the free block list from both sides
    (kernel/fs/s5fs/s5fs_subr.c and tools/fsmaker/api.py), reading and writing files
    (tools/fsmaker/api.py), and taking and giving back inodes (kernel/fs/s5fs/s5fs_subr.c).

    The superblock's fields and the inode table are fields of their own; `blocks` are the data
    blocks, number 0 standing for none. */
module S5Disk {
  import opened Arithmetic
  import opened Bytes
  import opened Lists
  import opened S5Blocks
  import opened S5Ownership

  /** The free inodes in the order in which they will be handed out. */
  ghost predicate FreeInodes(inodes: seq<Inode>, head: Word, list: seq<Word>)
    decreases |list|
  {
    if head == NONE then list == []
    else
      && list != [] && list[0] == head && head < |inodes|
      && inodes[head].kind == FreeInode && inodes[head].number == head
      && FreeInodes(inodes, inodes[head].size, list[1..])
  }

  lemma {:induction false} FreeInodesFrame(inodes: seq<Inode>, head: Word, list: seq<Word>, n: nat, x: Inode)
    requires FreeInodes(inodes, head, list) && n < |inodes| && n !in list
    ensures FreeInodes(inodes[n := x], head, list)
    decreases |list|
  {
    if head != NONE {
      FreeInodesFrame(inodes, inodes[head].size, list[1..], n, x);
    }
  }

  lemma {:induction false} FreeInodesKinds(inodes: seq<Inode>, head: Word, list: seq<Word>)
    requires FreeInodes(inodes, head, list)
    ensures forall n :: n in list ==> n < |inodes| && inodes[n].kind == FreeInode
    decreases |list|
  {
    if head != NONE {
      FreeInodesKinds(inodes, inodes[head].size, list[1..]);
      assert list == [list[0]] + list[1..];
    }
  }

  /** Freeing an unowned block keeps the ownership in order. */
  lemma OwnsPush(inodes: seq<Inode>, f: Free, blocks: seq<Block>, st: seq<Word>, b: Word)
    requires Owns(inodes, blocks, st) && Holds(f, blocks, st)
    requires 0 < b < |blocks| && b !in st && Unowned(inodes, blocks, b)
    ensures var (f', blocks') := Pushed(f, blocks, b);
            && Holds(f', blocks', st + [b]) && Owns(inodes, blocks', st + [b])
            && SameBytes(inodes, blocks, inodes, blocks') && |blocks'| == |blocks|
            && SameSlots(inodes, blocks, blocks')
  {
    hide Slot, Chain, SetWords, ByteAt;
    PushHolds(f, blocks, st, b);
    var (f', blocks') := Pushed(f, blocks, b);
    NoDupCons(st, b);
    assert Owns(inodes, blocks, st + [b]);
    if f.nfree == FNODE - 1 {
      UnownedPushed(inodes, blocks, st + [b], b, SetWords(blocks[b], f.fb));
    }
  }

  ghost predicate SameSlots(inodes: seq<Inode>, blocks: seq<Block>, blocks': seq<Block>)
    requires Shaped(inodes)
  {
    forall n, i :: 0 <= n < |inodes| && 0 <= i <= INDIRECT ==> Slot(inodes, blocks', n, i) == Slot(inodes, blocks, n, i)
  }

  lemma UnownedPushed(inodes: seq<Inode>, blocks: seq<Block>, st: seq<Word>, b: Word, x: Block)
    requires Owns(inodes, blocks, st) && 0 < b < |blocks| && Unowned(inodes, blocks, b)
    ensures var blocks' := blocks[b := x];
            Owns(inodes, blocks', st) && SameBytes(inodes, blocks, inodes, blocks')
                && SameSlots(inodes, blocks, blocks')
  {
    hide Slot, ByteAt;
    var blocks' := blocks[b := x];
    UnownedFrame(inodes, blocks, st, b, x);
    assert SameSlots(inodes, blocks, blocks') && SameBytes(inodes, blocks, inodes, blocks');
  }

  function Range(a: nat, b: nat): (r: seq<Word>)
    requires a <= b <= NONE
    ensures |r| == b - a && forall i :: 0 <= i < |r| ==> r[i] == a + i
  {
    if a == b then [] else Range(a, b - 1) + [b - 1]
  }

  lemma RangeNoDup(a: nat, b: nat)
    requires a <= b <= NONE
    ensures NoDup(Range(a, b)) && forall x :: x in Range(a, b) ==> a <= x < b
  {
  }

  lemma NotInRange(a: nat, b: nat)
    requires a <= b <= NONE
    ensures b !in Range(a, b)
  {
  }

  lemma {:induction false} AllInodesFree(inodes: seq<Inode>, i: nat)
    requires i <= |inodes| < NONE
    requires forall j :: 0 <= j < |inodes| ==> inodes[j].kind == FreeInode && inodes[j].number == j
                                               && inodes[j].size == if j == |inodes| - 1 then NONE else j + 1
    ensures FreeInodes(inodes, if i == |inodes| then NONE else i, Range(i, |inodes|))
    decreases |inodes| - i
  {
    if i < |inodes| {
      AllInodesFree(inodes, i + 1);
      assert Range(i, |inodes|)[1..] == Range(i + 1, |inodes|);
    }
  }

  /** The first `k` of `n` unused inodes, each linked to the next. */
  function FreshInodes(n: nat, k: nat): (r: seq<Inode>)
    requires k <= n < NONE
    ensures |r| == k
    ensures forall j :: 0 <= j < k ==> r[j] == Inode(FreeInode, if j == n - 1 then NONE else j + 1, j, 0, NoBlocks(), 0)
  {
    if k == 0 then []
    else FreshInodes(n, k - 1) + [Inode(FreeInode, if k == n then NONE else k, k - 1, 0, NoBlocks(), 0)]
  }

  lemma NothingFree(fb: seq<Word>, blocks: seq<Block>)
    requires |fb| == FNODE && fb[FNODE - 1] == NONE
    ensures Holds(Free(0, fb), blocks, [])
  {
  }

  lemma NobodyOwns(inodes: seq<Inode>, blocks: seq<Block>, st: seq<Word>)
    requires (forall j :: 0 <= j < |inodes| ==> inodes[j].kind == FreeInode && |inodes[j].direct| == NDIRECT)
             && |blocks| <= NONE
    requires NoDup(st) && forall b :: b in st ==> 0 < b < |blocks|
    ensures Owns(inodes, blocks, st)
  {
  }

  class Simdisk {
    var nfree: nat
    var fb: seq<Word>
    var freeInode: Word
    var inodes: seq<Inode>
    var blocks: seq<Block>
    ghost var stack: seq<Word>
    ghost var ifree: seq<Word>

    ghost predicate Valid()
      reads this
    {
      && Holds(Free(nfree, fb), blocks, stack) && Owns(inodes, blocks, stack)
      && FreeInodes(inodes, freeInode, ifree) && NoDup(ifree)
    }

    /** The inode table and the free list that `Simdisk.format` lays down, with the first free block as
        a parameter: all inodes free, in order, and every block from `first` on free.  The source writes
        the steps of freeing a block out once more. */
    constructor Format(inodeCount: nat, first: nat, count: nat)
      requires inodeCount < NONE && 0 < first <= count <= NONE
      ensures Valid() && |inodes| == inodeCount && |blocks| == count
      ensures stack == Range(first, count) && ifree == Range(0, inodeCount)
    {
      inodes := FreshInodes(inodeCount, inodeCount);
      blocks := seq(count, _ => Zeros);
      nfree := 0;
      fb := seq(FNODE, i => if i == FNODE - 1 then NONE else 0);
      freeInode := if inodeCount == 0 then NONE else 0;
      stack, ifree := [], Range(0, inodeCount);
      new;
      hide Owns, FreeInodes, Range, NoDup, Holds, FreshInodes;
      NothingFree(fb, blocks);
      FreeFrom(first);
      AllInodesFree(inodes, 0);
      RangeNoDup(0, inodeCount);
      RangeNoDup(first, count);
      NobodyOwns(inodes, blocks, stack);
    }

    /** The loop of `Simdisk.format` over the free blocks. */
    method FreeFrom(first: nat)
      requires Holds(Free(nfree, fb), blocks, stack) && stack == [] && 0 < first <= |blocks| <= NONE
      modifies this`nfree, this`fb, this`blocks, this`stack
      ensures Holds(Free(nfree, fb), blocks, stack) && |blocks| == |old(blocks)| && stack == Range(first, |blocks|)
    {
      hide Holds;
      var num := first;
      while num < |blocks|
        invariant first <= num <= |blocks| && |blocks| == |old(blocks)|
        invariant Holds(Free(nfree, fb), blocks, stack) && stack == Range(first, num)
        modifies this`nfree, this`fb, this`blocks, this`stack
      {
        NotInRange(first, num);
        FreeBlock(num);
        num := num + 1;
      }
    }

    /** `s5_free_block` of the kernel. */
    method FreeBlockKernel(b: Word)
      requires Holds(Free(nfree, fb), blocks, stack) && b < |blocks| && b != NONE && b !in stack
      modifies this`nfree, this`fb, this`blocks, this`stack
      ensures Holds(Free(nfree, fb), blocks, stack) && stack == old(stack) + [b]
      ensures (Free(nfree, fb), blocks) == Pushed(old(Free(nfree, fb)), old(blocks), b)
    {
      hide Chain;
      PushHolds(Free(nfree, fb), blocks, stack, b);
      if FNODE - 1 == nfree {
        blocks := blocks[b := SetWords(blocks[b], fb)];
        nfree := 0;
        fb := fb[FNODE - 1 := b];
      } else {
        fb := fb[nfree := b];
        nfree := nfree + 1;
      }
      stack := stack + [b];
    }

    lemma FreeFacts()
      requires Valid()
      ensures Shaped(inodes) && |fb| == FNODE && nfree < FNODE && |blocks| <= NONE
      ensures fb[FNODE - 1] == NONE || fb[FNODE - 1] < |blocks|
    {
      PopHolds(Free(nfree, fb), blocks, stack);
    }

    /** `Block.free` of the disk tool: the same step, word by word. */
    method FreeBlock(b: Word)
      requires Holds(Free(nfree, fb), blocks, stack) && b < |blocks| && b != NONE && b !in stack
      modifies this`nfree, this`fb, this`blocks, this`stack
      ensures Holds(Free(nfree, fb), blocks, stack) && stack == old(stack) + [b]
      ensures (Free(nfree, fb), blocks) == Pushed(old(Free(nfree, fb)), old(blocks), b)
    {
      hide Chain, SetWord;
      PushHolds(Free(nfree, fb), blocks, stack, b);
      if nfree < FNODE - 1 {
        fb := fb[nfree := b];
        nfree := nfree + 1;
      } else {
        var i := 0;
        while i < FNODE - 1
          invariant 0 <= i <= FNODE - 1
          invariant blocks == old(blocks)[b := SetWords(old(blocks)[b], fb[..i])]
          modifies this`blocks
        {
          assert fb[..i + 1][..i] == fb[..i];
          blocks := blocks[b := SetWord(blocks[b], i, fb[i])];
          i := i + 1;
        }
        assert SetWords(old(blocks)[b], fb) ==
                 SetWord(SetWords(old(blocks)[b], fb[..FNODE - 1]), FNODE - 1, fb[FNODE - 1]);
        blocks := blocks[b := SetWord(blocks[b], FNODE - 1, fb[FNODE - 1])];
        assert blocks == old(blocks)[b := SetWords(old(blocks)[b], fb)];
        fb := fb[FNODE - 1 := b];
        nfree := 0;
      }
      stack := stack + [b];
    }

    /** `alloc_block`: no space exactly when nothing is free, and else the last block freed. */
    method AllocBlock() returns (r: Option<Word>)
      requires Valid()
      modifies this`nfree, this`fb, this`stack
      ensures Valid() && (r.None? <==> old(stack) == [])
      ensures r.None? ==> unchanged(this)
      ensures r.Some? ==> old(stack) == stack + [r.value]
      ensures r.Some? ==>
                0 < r.value < |blocks| && r.value !in stack && Shaped(inodes) && Unowned(inodes, blocks, r.value)
    {
      hide Owns, Holds, FreeInodes, Unowned, WordAt;
      FreeFacts();
      PopHolds(Free(nfree, fb), blocks, stack);
      if nfree == 0 && fb[FNODE - 1] == NONE {
        return None;
      }
      OwnsPop(inodes, blocks, stack);
      assert stack == stack[..|stack| - 1] + [stack[|stack| - 1]];
      if nfree == 0 {
        var b := fb[FNODE - 1];
        var i := 0;
        while i < FNODE - 1
          invariant 0 <= i <= FNODE - 1 && |fb| == FNODE && fb[FNODE - 1] == b
          invariant forall j :: 0 <= j < i ==> fb[j] == WordAt(blocks[b], j)
          modifies this`fb
        {
          fb := fb[i := WordAt(blocks[b], i)];
          i := i + 1;
        }
        fb := fb[FNODE - 1 := WordAt(blocks[b], FNODE - 1)];
        nfree := FNODE - 1;
        assert fb == Words(blocks[b], FNODE);
        r := Some(b);
      } else {
        nfree := nfree - 1;
        r := Some(fb[nfree]);
      }
      stack := stack[..|stack| - 1];
    }

    /** A block taken and zeroed. */
    method AllocZeroed() returns (r: Option<Word>)
      requires Valid()
      modifies this`nfree, this`fb, this`blocks, this`stack
      ensures Valid() && (r.None? <==> old(stack) == []) && Shaped(inodes)
      ensures r.None? ==> unchanged(this)
      ensures r.Some? ==> old(stack) == stack + [r.value]
      ensures |blocks| == |old(blocks)|
      ensures r.Some? ==> 0 < r.value < |blocks| && r.value !in stack && blocks == old(blocks)[r.value := Zeros]
      ensures r.Some? ==> Unowned(inodes, blocks, r.value)
      ensures SameBytes(inodes, old(blocks), inodes, blocks) && SameSlots(inodes, old(blocks), blocks)
    {
      hide Owns, Holds, FreeInodes, ByteAt, Slot;
      r := AllocBlock();
      if r.Some? {
        HoldsFrame(Free(nfree, fb), blocks, stack, r.value, Zeros);
        UnownedPushed(inodes, blocks, stack, r.value, Zeros);
        blocks := blocks[r.value := Zeros];
      }
      FreeFacts();
    }

    /** Makes sure that the file has an indirect block. */
    method EnsureIndirect(n: nat) returns (ok: bool)
      requires Valid() && n < |inodes| && IsFile(inodes[n])
      modifies this
      ensures Valid() && Shaped(inodes) && Shaped(old(inodes)) && OneInode(old(inodes), inodes, n)
      ensures SameBytes(old(inodes), old(blocks), inodes, blocks)
      ensures ok <==> inodes[n].indirect != 0
      ensures ok <==> old(inodes[n].indirect) != 0 || old(stack) != []
      ensures old(inodes[n].indirect) != 0 || old(stack) == [] ==>
                inodes == old(inodes) && blocks == old(blocks) && stack == old(stack)
      ensures ok && old(inodes[n].indirect) == 0 ==> old(stack) == stack + [inodes[n].indirect]
      ensures ok ==> SlotsBut(old(inodes), old(blocks), inodes, blocks, n, INDIRECT, inodes[n].indirect)
      ensures ifree == old(ifree) && freeInode == old(freeInode)
    {
      hide Owns, Holds, FreeInodes, ByteAt, Slot, SameBytes, Unowned;
      FreeFacts();
      if inodes[n].indirect == 0 {
        ghost var blocks0, inodes0 := blocks, inodes;
        var indirect := AllocZeroed();
        if indirect.None? {
          SameBytesRefl(inodes, blocks);
          return false;
        }
        IndirectLinked(inodes, blocks0, blocks, stack, n, indirect.value);
        InodeLinked(inodes, freeInode, ifree, n, inodes[n].(indirect := indirect.value));
        HoldsInodes();
        inodes := inodes[n := inodes[n].(indirect := indirect.value)];
      } else {
        SameBytesRefl(inodes, blocks);
        SlotsSameBut(inodes, blocks, n);
      }
      ok := true;
    }

    /** The block number in a slot, as reading and writing look it up. */
    method LookUp(n: nat, k: nat) returns (b: Word)
      requires Valid() && n < |inodes| && IsFile(inodes[n]) && k < INDIRECT
      ensures Shaped(inodes) && b == Slot(inodes, blocks, n, k) && (b != 0 ==> b < |blocks|)
    {
      hide WordAt;
      FreeFacts();
      OwnedInRange(inodes, blocks, stack, n, k);
      OwnedInRange(inodes, blocks, stack, n, INDIRECT);
      if k < NDIRECT {
        b := inodes[n].direct[k];
      } else if inodes[n].indirect == 0 {
        b := 0;
      } else {
        b := WordAt(blocks[inodes[n].indirect], k - NDIRECT);
      }
    }

    /** Gives an empty slot of a file a zeroed block. */
    method AllocSlot(n: nat, k: nat) returns (r: Option<Word>)
      requires Valid() && n < |inodes| && IsFile(inodes[n]) && k < INDIRECT
      requires k >= NDIRECT ==> inodes[n].indirect != 0
      requires Shaped(inodes) && Slot(inodes, blocks, n, k) == 0
      modifies this
      ensures Valid() && Shaped(inodes) && OneInode(old(inodes), inodes, n)
      ensures SameBytes(old(inodes), old(blocks), inodes, blocks)
      ensures r.None? <==> old(stack) == []
      ensures r.None? ==> unchanged(this)
      ensures r.Some? ==> old(stack) == stack + [r.value] && 0 < r.value < |blocks|
      ensures r.Some? ==> SlotsBut(old(inodes), old(blocks), inodes, blocks, n, k, r.value)
      ensures ifree == old(ifree) && freeInode == old(freeInode)
    {
      hide Owns, Holds, FreeInodes, ByteAt, Slot, SameBytes, Unowned, SetWord;
      FreeFacts();
      ghost var blocks0, inodes0 := blocks, inodes;
      r := AllocZeroed();
      if r.None? {
        SameBytesRefl(inodes, blocks);
        return;
      }
      if k < NDIRECT {
        DirectLinked(inodes, blocks0, blocks, stack, n, k, r.value);
        InodeLinked(inodes, freeInode, ifree, n, inodes[n].(direct := inodes[n].direct[k := r.value]));
        HoldsInodes();
        inodes := inodes[n := inodes[n].(direct := inodes[n].direct[k := r.value])];
      } else {
        EntryLinked(inodes, blocks0, blocks, stack, n, k, r.value);
        var d := inodes[n].indirect;
        HoldsInodes();
        HoldsFrame(Free(nfree, fb), blocks, stack, d, SetWord(blocks[d], k - NDIRECT, r.value));
        blocks := blocks[d := SetWord(blocks[d], k - NDIRECT, r.value)];
      }
    }

    /** The block that a write stores into, with the blocks it takes for that. */
    method BlockFor(n: nat, k: nat) returns (r: Option<Word>)
      requires Valid() && n < |inodes| && IsFile(inodes[n]) && k < INDIRECT
      modifies this
      ensures Valid() && Shaped(inodes) && Shaped(old(inodes)) && OneInode(old(inodes), inodes, n)
      ensures SameBytes(old(inodes), old(blocks), inodes, blocks)
      ensures stack <= old(stack) && ifree == old(ifree) && freeInode == old(freeInode)
      ensures r.None? <==> |old(stack)| < Need(old(inodes), old(blocks), n, k)
      ensures r.Some? ==> |stack| == |old(stack)| - Need(old(inodes), old(blocks), n, k)
      ensures r.Some? ==> 0 < r.value < |blocks| && r.value == Slot(inodes, blocks, n, k)
      ensures r.Some? ==> SlotsAround(old(inodes), old(blocks), inodes, blocks, n, k)
    {
      hide Owns, Holds, FreeInodes, ByteAt, Slot, SameBytes;
      FreeFacts();
      ghost var inodes0, blocks0 := inodes, blocks;
      SameBytesRefl(inodes, blocks);
      NoIndirect(inodes, blocks, n);
      if k >= NDIRECT {
        var ok := EnsureIndirect(n);
        if !ok {
          return None;
        }
        NoIndirect(inodes, blocks, n);
      }
      ghost var mid, bmid := inodes, blocks;
      var b := LookUp(n, k);
      if b == 0 {
        r := AllocSlot(n, k);
        SameBytesThen(inodes0, blocks0, mid, bmid, inodes, blocks);
      } else {
        r := Some(b);
      }
    }

    /** One round of a write: `part` into slot `k`, whose block is there. */
    method StorePart(n: nat, k: nat, b: Word, off: nat, part: seq<Byte>)
      requires Valid() && n < |inodes| && k < INDIRECT && off + |part| <= BLOCK_SIZE
      requires Shaped(inodes) && b == Slot(inodes, blocks, n, k) && 0 < b < |blocks|
      modifies this`blocks
      ensures Valid() && |blocks| == |old(blocks)|
      ensures BytesOver(inodes, old(blocks), inodes, blocks, n, k * BLOCK_SIZE + off, part)
      ensures SameSlots(inodes, old(blocks), blocks)
    {
      hide Owns, Holds, FreeInodes, ByteAt, Slot;
      HoldsInodes();
      OwnedInRange(inodes, blocks, stack, n, k);
      HoldsFrame(Free(nfree, fb), blocks, stack, b, Overlay(blocks[b], off, part));
      Store(inodes, blocks, stack, n, k, off, part);
      blocks := blocks[b := Overlay(blocks[b], off, part)];
    }

    /** `Inode.write`.  The file's bytes are the old ones with `data` over them from `offset` on, no
        other file changes, and there is no space exactly when the blocks that the range lacks are
        more than the free ones; then the first `done` bytes are in place, the size as before. */
    method Write(n: nat, offset: nat, data: seq<Byte>) returns (r: Written, ghost done: nat)
      requires Valid() && n < |inodes|
      modifies this
      ensures Valid() && Shaped(inodes) && Shaped(old(inodes)) && n < |old(inodes)|
      ensures r == BadType <==> !IsFile(old(inodes)[n])
      ensures r == TooLarge <==> IsFile(old(inodes)[n]) && offset + |data| > MAX_FILE_SIZE
      ensures r == BadType || r == TooLarge ==> unchanged(this)
      ensures r == NoSpace <==>
              && IsFile(old(inodes)[n]) && offset + |data| <= MAX_FILE_SIZE
              && |old(stack)| < Lacking(old(inodes), old(blocks), n, offset, |data|)
      ensures r == Ok || r == NoSpace ==>
                && done <= |data| && (r == Ok ==> done == |data|)
                && BytesOver(old(inodes), old(blocks), inodes, blocks, n, offset, data[..done])
                && stack <= old(stack) && ifree == old(ifree) && freeInode == old(freeInode)
      ensures r == Ok ==>
                && |stack| == |old(stack)| - Lacking(old(inodes), old(blocks), n, offset, |data|)
                && Resized(old(inodes), inodes, n,
                     if offset + |data| > old(inodes)[n].size then offset + |data| else old(inodes)[n].size)
      ensures r == NoSpace ==> OneInode(old(inodes), inodes, n)
    {
      hide Owns, Holds, FreeInodes, ByteAt, Slot, SameBytes, BytesOver, SameSlots, Need, Writing, Lacking;
      FreeFacts();
      if !IsFile(inodes[n]) {
        return BadType, 0;
      }
      if offset + |data| > MAX_FILE_SIZE {
        return TooLarge, 0;
      }
      ghost var inodes0, blocks0, free0 := inodes, blocks, |stack|;
      var off, remaining := offset, |data|;
      WriteStart(inodes, blocks, free0, n, offset, data);
      while remaining > 0
        invariant Valid() && Shaped(inodes) && OneInode(inodes0, inodes, n) && IsFile(inodes[n])
        invariant 0 <= remaining <= |data| && off == offset + |data| - remaining
        invariant Writing(inodes0, blocks0, free0, inodes, blocks, |stack|, n, offset, data, remaining)
        invariant stack <= old(stack) && ifree == old(ifree) && freeInode == old(freeInode)
        decreases remaining
      {
        var k, blockoff := off / BLOCK_SIZE, off % BLOCK_SIZE;
        var amount := if BLOCK_SIZE - blockoff < remaining then BLOCK_SIZE - blockoff else remaining;
        ghost var mid, bmid, left := inodes, blocks, |stack|;
        NextBlock(off, k, amount, remaining, offset + |data|);
        RangeInFile(off, remaining);
        var block := BlockFor(n, k);
        if block.None? {
          WriteStops(inodes0, blocks0, free0, mid, bmid, left, inodes, blocks, n, offset, data, remaining);
          done := |data| - remaining;
          return NoSpace, done;
        }
        var start := |data| - remaining;
        ghost var bmid' := blocks;
        StorePart(n, k, block.value, blockoff, data[start..start + amount]);
        WriteRound(inodes0, blocks0, free0, mid, bmid, left, inodes, bmid', blocks, |stack|, n, offset, data, remaining,
              amount);
        remaining := remaining - amount;
        off := off + amount;
      }
      WriteEnds(inodes0, blocks0, free0, inodes, blocks, |stack|, n, offset, data);
      assert data[..|data|] == data;
      done := |data|;
      if off > inodes[n].size {
        ghost var mid := inodes;
        SizeUnseen(inodes, blocks, stack, n, off);
        InodeLinked(inodes, freeInode, ifree, n, inodes[n].(size := off));
        HoldsInodes();
        inodes := inodes[n := inodes[n].(size := off)];
        OverUnseen(inodes0, blocks0, mid, blocks, inodes, blocks, n, offset, data);
      }
      r := Ok;
    }

    /** The first loop of `s5_free_inode`: the direct blocks. */
    method FreeDirect(n: nat)
      requires Valid() && n < |inodes| && inodes[n].kind != FreeInode
      modifies this`nfree, this`fb, this`blocks, this`stack, this`inodes
      ensures Valid() && Shaped(inodes) && Shaped(old(inodes)) && |blocks| == |old(blocks)|
      ensures inodes == old(inodes)[n := old(inodes)[n].(direct := NoBlocks())]
      ensures stack == old(stack) + NonZero(old(inodes)[n].direct)
      ensures Others(old(inodes), old(blocks), inodes, blocks, n)
      ensures old(inodes)[n].indirect != 0 && IsFile(old(inodes)[n]) ==>
                && old(inodes)[n].indirect < |blocks|
                && blocks[old(inodes)[n].indirect] == old(blocks)[old(inodes)[n].indirect]
    {
      hide Owns, Holds, FreeInodes, Unowned, Slot, ByteAt, Others, OnlyDirect, Pushed, NonZero;
      FreeFacts();
      OnlyDirectStart(inodes, n);
      assert inodes[n].direct[..0] == [] && NonZero([]) == [] by { NoNonZero(); }
      ghost var inodes0, blocks0 := inodes, blocks;
      ghost var d := inodes[n].indirect;
      OthersRefl(inodes, blocks, n);
      IndirectKept(inodes, blocks, stack, n);
      var i := 0;
      while i < NDIRECT
        invariant 0 <= i <= NDIRECT && Valid() && Shaped(inodes) && |blocks| == |blocks0|
        invariant OnlyDirect(inodes0, inodes, n, i)
        invariant stack == old(stack) + NonZero(inodes0[n].direct[..i])
        invariant Others(inodes0, blocks0, inodes, blocks, n)
        invariant d != 0 && IsFile(inodes0[n]) ==> d < |blocks| && blocks[d] == blocks0[d]
        modifies this`nfree, this`fb, this`blocks, this`stack, this`inodes
      {
        OnlyDirectStep(inodes0, inodes, n, i);
        var b := inodes[n].direct[i];
        NonZeroSnoc(inodes0[n].direct[..i], b);
        if b != 0 {
          ghost var mid, bmid := inodes, blocks;
          DirectFreed(inodes, Free(nfree, fb), blocks, stack, n, i);
          InodeKept(inodes, freeInode, ifree, n, inodes[n].(direct := inodes[n].direct[i := 0]));
          HoldsInodes();
          FreeBlockKernel(b);
          inodes := inodes[n := inodes[n].(direct := inodes[n].direct[i := 0])];
          OthersThen(inodes0, blocks0, mid, bmid, inodes, blocks, n);
        }
        i := i + 1;
      }
      OnlyDirectEnd(inodes0, inodes, n);
    }

    /** The second loop and what follows it: the blocks listed in the indirect block, every entry
        read before that block itself is freed.  `g` is the inode table without the indirect block. */
    method FreeEntries(d: Word, ghost g: seq<Inode>)
      requires Holds(Free(nfree, fb), blocks, stack) && Owns(g, blocks, stack) && Pending(g, blocks, stack, d, 0)
      modifies this`nfree, this`fb, this`blocks, this`stack
      ensures Holds(Free(nfree, fb), blocks, stack) && Owns(g, blocks, stack) && |blocks| == |old(blocks)|
      ensures d < |old(blocks)| && stack == old(stack) + NonZero(Words(old(blocks)[d], NWORDS)) + [d]
      ensures Shaped(g) && SameBytes(g, old(blocks), g, blocks)
    {
      hide Owns, Holds, Slot, ByteAt, SameBytes, WordAt, Words, Pending;
      ghost var blocks0 := blocks;
      OwnsShaped(g, blocks, stack);
      SameBytesRefl(g, blocks);
      PendingFacts(g, blocks, stack, d, 0);
      ghost var words := Words(blocks[d], NWORDS);
      var i := 0;
      while i < NWORDS
        invariant 0 <= i <= NWORDS && Holds(Free(nfree, fb), blocks, stack) && Owns(g, blocks, stack)
        invariant Pending(g, blocks, stack, d, i) && d < |blocks| == |blocks0| && blocks[d] == blocks0[d]
        invariant stack == old(stack) + NonZero(words[..i])
        invariant SameBytes(g, blocks0, g, blocks)
        modifies this`nfree, this`fb, this`blocks, this`stack
      {
        var w := WordAt(blocks[d], i);
        WordsAt(blocks[d], i);
        NonZeroSnoc(words[..i], w);
        assert words[..i + 1] == words[..i] + [w];
        PendingStep(g, Free(nfree, fb), blocks, stack, d, i);
        assert w != d;
        if w != 0 {
          ghost var bmid := blocks;
          FreeBlockKernel(w);
          SameBytesThen(g, blocks0, g, bmid, g, blocks);
        }
        i := i + 1;
      }
      assert words[..NWORDS] == words;
      ghost var bmid := blocks;
      PendingEnd(g, Free(nfree, fb), blocks, stack, d);
      FreeBlockKernel(d);
      SameBytesThen(g, blocks0, g, bmid, g, blocks);
    }

    /** `s5_free_inode`: every block of the file goes to the free list once, the direct ones, those
        listed in the indirect block and that block itself, in this order; the inode comes first in
        the list of free inodes. */
    method FreeInodeKernel(n: Word)
      requires Valid() && n < |inodes| && n != NONE && inodes[n].kind != FreeInode && inodes[n].number == n
      modifies this
      ensures Valid() && Shaped(inodes) && Shaped(old(inodes)) && |blocks| == |old(blocks)|
      ensures IsFile(old(inodes)[n]) && old(inodes)[n].indirect != 0 ==> old(inodes)[n].indirect < |old(blocks)|
      ensures stack == old(stack) + BlocksOf(old(blocks), old(inodes)[n])
      ensures ifree == [n] + old(ifree)
      ensures inodes == old(inodes)[n := old(inodes)[n].(kind := FreeInode, size := old(freeInode),
                direct := NoBlocks(), indirect := 0)]
      ensures Others(old(inodes), old(blocks), inodes, blocks, n)
    {
      hide Owns, Holds, FreeInodes, Unowned, Slot, ByteAt, Others, NonZero, Words;
      FreeFacts();
      ghost var inodes0, blocks0 := inodes, blocks;
      FreeDirect(n);
      ghost var mid, bmid := inodes, blocks;
      ghost var g := FreeIndirect(n);
      InodeFreed(mid, freeInode, ifree, g, blocks, stack, n);
      inodes := inodes[n := inodes[n].(indirect := 0, kind := FreeInode)];
      inodes := inodes[n := inodes[n].(size := freeInode)];
      freeInode := inodes[n].number;
      ifree := [n] + ifree;
      assert inodes == g[n := g[n].(kind := FreeInode, size := old(freeInode))];
      OthersThen(inodes0, blocks0, mid, bmid, g, blocks, n);
      OthersThen(inodes0, blocks0, g, blocks, inodes, blocks, n);
    }

    /** The middle part of `s5_free_inode`, of a file with an indirect block; `g` is the inode table
        without it. */
    method FreeIndirect(n: Word) returns (ghost g: seq<Inode>)
      requires Valid() && n < |inodes|
      modifies this`nfree, this`fb, this`blocks, this`stack
      ensures Shaped(inodes) && g == inodes[n := inodes[n].(indirect := 0)] && Shaped(g)
      ensures Holds(Free(nfree, fb), blocks, stack) && Owns(g, blocks, stack) && |blocks| == |old(blocks)|
      ensures IsFile(inodes[n]) && inodes[n].indirect != 0 ==> inodes[n].indirect < |old(blocks)|
      ensures stack == old(stack) + if IsFile(inodes[n]) && inodes[n].indirect != 0
                                    then NonZero(Words(old(blocks)[inodes[n].indirect], NWORDS)) + [inodes[n].indirect]
                                          else []
      ensures Others(inodes, old(blocks), g, blocks, n)
    {
      hide Owns, Holds, FreeInodes, Unowned, Slot, ByteAt, Others, Pending, SameBytes, NonZero, Words;
      FreeFacts();
      HoldsInodes();
      ghost var bmid := blocks;
      g := inodes[n := inodes[n].(indirect := 0)];
      var d := inodes[n].indirect;
      if (inodes[n].kind == Data || inodes[n].kind == Dir) && d != 0 {
        Detach(inodes, blocks, stack, n);
        DetachOthers(inodes, blocks, n);
        FreeEntries(d, g);
        OthersBytes(inodes, bmid, g, blocks, n);
      } else {
        NothingIndirect(inodes, blocks, stack, n);
      }
    }

    /** `s5_alloc_inode`: no inode exactly when the list is empty, and else its first, which owns no
        block and reads as zeros. */
    method AllocInodeKernel(kind: Kind, devid: Word) returns (r: Option<Word>)
      requires Valid() && kind != FreeInode
      modifies this`inodes, this`freeInode, this`ifree
      ensures Valid() && Shaped(inodes) && Shaped(old(inodes))
      ensures r.None? <==> old(ifree) == []
      ensures r.None? ==> unchanged(this)
      ensures r.Some? ==>
                && old(ifree) == [r.value] + ifree && r.value < |old(inodes)|
                && inodes == old(inodes)[r.value := Inode(kind, 0, r.value, 0, NoBlocks(),
                     if kind == Chr || kind == Blk then devid else 0)]
      ensures SameBytes(old(inodes), blocks, inodes, blocks)
    {
      hide Owns, Holds, ByteAt, Slot, SameBytes;
      FreeFacts();
      SameBytesRefl(inodes, blocks);
      if freeInode == NONE {
        return None;
      }
      var n := freeInode;
      var x := Inode(kind, 0, inodes[n].number, 0, NoBlocks(), if kind == Chr || kind == Blk then devid else 0);
      assert ifree == [n] + ifree[1..];
      FreeInodesFrame(inodes, inodes[n].size, ifree[1..], n, x);
      NewInode(inodes, blocks, stack, n, x);
      HoldsInodes();
      freeInode := inodes[n].size;
      inodes := inodes[n := x];
      ifree := ifree[1..];
      return Some(n);
    }

    /** `Inode.read`: the file's bytes from `offset` on, as many as asked for, or up to the end of the
        file, and none behind that. */
    method Read(n: nat, offset: nat, size: Option<nat>) returns (r: Option<seq<Byte>>)
      requires Valid() && n < |inodes|
      ensures Shaped(inodes) && (r.None? <==> !IsFile(inodes[n]))
      ensures r.Some? ==> |r.value| <= (if size.Some? then size.value else inodes[n].size)
      ensures r.Some? && r.value != [] ==> offset + |r.value| <= inodes[n].size && offset + |r.value| <= MAX_FILE_SIZE
      ensures r.Some? && |r.value| < (if size.Some? then size.value else inodes[n].size) ==>
                offset + |r.value| >= inodes[n].size || offset + |r.value| >= MAX_FILE_SIZE
      ensures r.Some? ==>
                forall i :: 0 <= i < |r.value| ==>
                  offset + i < MAX_FILE_SIZE && r.value[i] == ByteAt(inodes, blocks, n, offset + i)
    {
      hide Owns, Holds, FreeInodes, Slot;
      FreeFacts();
      var left: int := if size.Some? then size.value else inodes[n].size;
      if !IsFile(inodes[n]) {
        return None;
      }
      left := Min(left, Min(MAX_FILE_SIZE, inodes[n].size) - offset);
      var off, res := offset, [];
      ghost var len := left;
      while left > 0
        invariant off == offset + |res| && left == len - |res| && (|res| == 0 || left >= 0)
        invariant forall i :: 0 <= i < |res| ==>
                    offset + i < MAX_FILE_SIZE && res[i] == ByteAt(inodes, blocks, n, offset + i)
        decreases left
      {
        var k, blockoff := off / BLOCK_SIZE, off % BLOCK_SIZE;
        var amount := Min(BLOCK_SIZE - blockoff, left);
        var b := LookUp(n, k);
        var part := if b == 0 then seq(amount, _ => 0) else blocks[b][blockoff..blockoff + amount];
        PartBytes(inodes, blocks, n, off, amount, part);
        res := res + part;
        off := off + amount;
        left := left - amount;
      }
      return Some(res);
    }

    lemma HoldsInodes()
      requires Valid()
      ensures Holds(Free(nfree, fb), blocks, stack)
    {
    }
  }

  /** The inode table but for the block numbers of file `n`. */
  ghost predicate OneInode(inodes: seq<Inode>, inodes': seq<Inode>, n: nat) {
    && |inodes'| == |inodes| && n < |inodes|
    && inodes' == inodes[n := inodes'[n]]
    && inodes'[n] == inodes[n].(direct := inodes'[n].direct, indirect := inodes'[n].indirect)
  }

  lemma SameBytesRefl(inodes: seq<Inode>, blocks: seq<Block>)
    requires Shaped(inodes)
    ensures SameBytes(inodes, blocks, inodes, blocks)
  {
    hide ByteAt;
  }

  lemma SlotsSameBut(inodes: seq<Inode>, blocks: seq<Block>, n: nat)
    requires Shaped(inodes) && n < |inodes| && IsFile(inodes[n])
    ensures SlotsBut(inodes, blocks, inodes, blocks, n, INDIRECT, inodes[n].indirect)
  {
    hide WordAt;
  }

  lemma InodeLinked(inodes: seq<Inode>, head: Word, list: seq<Word>, n: nat, x: Inode)
    requires FreeInodes(inodes, head, list) && n < |inodes| && IsFile(inodes[n])
    ensures FreeInodes(inodes[n := x], head, list)
  {
    FreeInodesKinds(inodes, head, list);
    FreeInodesFrame(inodes, head, list, n, x);
  }

  lemma SlotsButThen(inodes: seq<Inode>, blocks0: seq<Block>, blocks: seq<Block>, inodes': seq<Inode>,
                     blocks': seq<Block>, n: nat, k: nat, b: Word)
    requires Shaped(inodes) && Shaped(inodes') && n < |inodes| && k <= INDIRECT && |blocks0| == |blocks|
    requires SameSlots(inodes, blocks0, blocks) && SlotsBut(inodes, blocks, inodes', blocks', n, k, b)
    ensures SlotsBut(inodes, blocks0, inodes', blocks', n, k, b)
  {
    hide Slot;
  }

  lemma SameBytesThen(inodes: seq<Inode>, blocks0: seq<Block>, mid: seq<Inode>, blocks: seq<Block>, inodes': seq<Inode>,
                      blocks': seq<Block>)
    requires Shaped(inodes) && Shaped(mid) && Shaped(inodes')
    requires SameBytes(inodes, blocks0, mid, blocks) && SameBytes(mid, blocks, inodes', blocks')
    ensures SameBytes(inodes, blocks0, inodes', blocks')
  {
    hide ByteAt;
    forall m, off | 0 <= m < |inodes| && 0 <= off < MAX_FILE_SIZE
      ensures ByteAt(inodes', blocks', m, off) == ByteAt(inodes, blocks0, m, off)
    {
      assert ByteAt(mid, blocks, m, off) == ByteAt(inodes, blocks0, m, off);
    }
  }

  lemma DataKeptRefl(inodes: seq<Inode>, blocks: seq<Block>)
    requires Shaped(inodes)
    ensures DataKept(inodes, blocks, blocks)
  {
    hide Slot;
  }

  lemma IndirectLinked(inodes: seq<Inode>, blocks0: seq<Block>, blocks: seq<Block>, st: seq<Word>, n: nat, b: Word)
    requires Owns(inodes, blocks, st) && n < |inodes| && IsFile(inodes[n]) && inodes[n].indirect == 0
    requires 0 < b < |blocks| && blocks[b] == Zeros && Unowned(inodes, blocks, b) && b !in st && |blocks0| == |blocks|
    requires SameBytes(inodes, blocks0, inodes, blocks) && SameSlots(inodes, blocks0, blocks)
    ensures var inodes' := inodes[n := inodes[n].(indirect := b)];
            && Shaped(inodes') && Owns(inodes', blocks, st)
            && SameBytes(inodes, blocks0, inodes', blocks)
            && SlotsBut(inodes, blocks0, inodes', blocks, n, INDIRECT, b)
  {
    hide Slot, ByteAt, SameBytes;
    var inodes' := inodes[n := inodes[n].(indirect := b)];
    LinkIndirect(inodes, blocks, n, b);
    OwnsMore(inodes, blocks, inodes', blocks, st, n, INDIRECT, b);
    DataKeptRefl(inodes, blocks);
    NoIndirect(inodes, blocks, n);
    LinkUnseen(inodes, blocks, inodes', blocks, n, INDIRECT, b);
    SameBytesThen(inodes, blocks0, inodes, blocks, inodes', blocks);
    SlotsButThen(inodes, blocks0, blocks, inodes', blocks, n, INDIRECT, b);
  }

  lemma NoIndirect(inodes: seq<Inode>, blocks: seq<Block>, n: nat)
    requires Shaped(inodes) && n < |inodes| && IsFile(inodes[n])
    ensures Slot(inodes, blocks, n, INDIRECT) == inodes[n].indirect
  {
  }

  lemma OwnedInRange(inodes: seq<Inode>, blocks: seq<Block>, st: seq<Word>, n: nat, i: nat)
    requires Owns(inodes, blocks, st) && n < |inodes| && i <= INDIRECT
    ensures Slot(inodes, blocks, n, i) != 0 ==>
              Slot(inodes, blocks, n, i) < |blocks| && Slot(inodes, blocks, n, i) !in st
    ensures |blocks| > 0 || Slot(inodes, blocks, n, i) == 0
  {
  }

  lemma DirectLinked(inodes: seq<Inode>, blocks0: seq<Block>, blocks: seq<Block>, st: seq<Word>, n: nat, k: nat,
                     b: Word)
    requires Owns(inodes, blocks, st) && n < |inodes| && IsFile(inodes[n]) && k < NDIRECT
    requires 0 < b < |blocks| && blocks[b] == Zeros && Unowned(inodes, blocks, b) && b !in st && |blocks0| == |blocks|
    requires SameBytes(inodes, blocks0, inodes, blocks) && SameSlots(inodes, blocks0, blocks)
    requires Slot(inodes, blocks0, n, k) == 0
    ensures var inodes' := inodes[n := inodes[n].(direct := inodes[n].direct[k := b])];
            && Shaped(inodes') && Owns(inodes', blocks, st)
            && SameBytes(inodes, blocks0, inodes', blocks)
            && SlotsBut(inodes, blocks0, inodes', blocks, n, k, b)
  {
    hide Slot, ByteAt, SameBytes;
    var inodes' := inodes[n := inodes[n].(direct := inodes[n].direct[k := b])];
    LinkDirect(inodes, blocks, n, k, b);
    OwnsMore(inodes, blocks, inodes', blocks, st, n, k, b);
    DataKeptRefl(inodes, blocks);
    assert Slot(inodes, blocks, n, k) == Slot(inodes, blocks0, n, k);
    LinkUnseen(inodes, blocks, inodes', blocks, n, k, b);
    SameBytesThen(inodes, blocks0, inodes, blocks, inodes', blocks);
    SlotsButThen(inodes, blocks0, blocks, inodes', blocks, n, k, b);
  }

  lemma EntryLinked(inodes: seq<Inode>, blocks0: seq<Block>, blocks: seq<Block>, st: seq<Word>, n: nat, k: nat, b: Word)
    requires Owns(inodes, blocks, st) && n < |inodes| && IsFile(inodes[n]) && NDIRECT <= k < INDIRECT
             && inodes[n].indirect != 0
    requires 0 < b < |blocks| && blocks[b] == Zeros && Unowned(inodes, blocks, b) && b !in st && |blocks0| == |blocks|
    requires SameBytes(inodes, blocks0, inodes, blocks) && SameSlots(inodes, blocks0, blocks)
    requires Slot(inodes, blocks0, n, k) == 0
    ensures var d := inodes[n].indirect;
            && d < |blocks| && d !in st
            && var blocks' := blocks[d := SetWord(blocks[d], k - NDIRECT, b)];
               && Owns(inodes, blocks', st)
               && SameBytes(inodes, blocks0, inodes, blocks')
               && SlotsBut(inodes, blocks0, inodes, blocks', n, k, b)
  {
    hide Slot, ByteAt, SameBytes, SetWord;
    var d := inodes[n].indirect;
    NoIndirect(inodes, blocks, n);
    OwnedInRange(inodes, blocks, st, n, INDIRECT);
    var blocks' := blocks[d := SetWord(blocks[d], k - NDIRECT, b)];
    LinkEntry(inodes, blocks, st, n, k, b);
    OwnsMore(inodes, blocks, inodes, blocks', st, n, k, b);
    IndirectNotData(inodes, blocks, st, n, SetWord(blocks[d], k - NDIRECT, b));
    assert Slot(inodes, blocks, n, k) == Slot(inodes, blocks0, n, k);
    assert d != b;
    LinkUnseen(inodes, blocks, inodes, blocks', n, k, b);
    SameBytesThen(inodes, blocks0, inodes, blocks, inodes, blocks');
    SlotsButThen(inodes, blocks0, blocks, inodes, blocks', n, k, b);
  }

  /** An indirect block is no one's data. */
  lemma IndirectNotData(inodes: seq<Inode>, blocks: seq<Block>, st: seq<Word>, n: nat, x: Block)
    requires Owns(inodes, blocks, st) && n < |inodes| && 0 < Slot(inodes, blocks, n, INDIRECT) < |blocks|
    ensures DataKept(inodes, blocks, blocks[Slot(inodes, blocks, n, INDIRECT) := x])
  {
    hide Slot;
    var d := Slot(inodes, blocks, n, INDIRECT);
    forall m, j | 0 <= m < |inodes| && 0 <= j < INDIRECT && 0 < Slot(inodes, blocks, m, j) < |blocks|
      ensures Slot(inodes, blocks, m, j) != d
    {
    }
  }

  /** How many blocks writing through slot `k` takes. */
  ghost function Need(inodes: seq<Inode>, blocks: seq<Block>, n: nat, k: nat): nat
    requires Shaped(inodes) && n < |inodes| && k < INDIRECT
  {
    (if k >= NDIRECT && Slot(inodes, blocks, n, INDIRECT) == 0 then 1 else 0)
          + (if Slot(inodes, blocks, n, k) == 0 then 1 else 0)
  }

  /** The slots after that. */
  ghost predicate SlotsAround(inodes: seq<Inode>, blocks: seq<Block>, inodes': seq<Inode>, blocks': seq<Block>, n: nat,
                              k: nat)
    requires Shaped(inodes) && Shaped(inodes') && n < |inodes| && k < INDIRECT
  {
    && |inodes'| == |inodes| && |blocks'| == |blocks|
    && (forall m, j :: 0 <= m < |inodes| && 0 <= j <= INDIRECT && !(m == n && (j == k || j == INDIRECT)) ==>
          Slot(inodes', blocks', m, j) == Slot(inodes, blocks, m, j))
    && (Slot(inodes', blocks', n, INDIRECT) == 0 <==> k < NDIRECT && Slot(inodes, blocks, n, INDIRECT) == 0)
  }

  datatype Written = Ok | BadType | TooLarge | NoSpace

  /** The blocks up to an offset, the last one perhaps in part. */
  function Ceil(off: nat): nat {
    (off + BLOCK_SIZE - 1) / BLOCK_SIZE
  }

  /** The empty slots from `k` to `e`. */
  ghost function Empty(inodes: seq<Inode>, blocks: seq<Block>, n: nat, k: nat, e: nat): nat
    requires Shaped(inodes) && n < |inodes| && k <= e <= INDIRECT
    decreases e - k
  {
    if k == e then 0 else (if Slot(inodes, blocks, n, k) == 0 then 1 else 0) + Empty(inodes, blocks, n, k + 1, e)
  }

  /** The blocks that the slots from `k` to `e` lack, with the indirect block when one of them is
      reached through it. */
  ghost function Wanted(inodes: seq<Inode>, blocks: seq<Block>, n: nat, k: nat, e: nat): nat
    requires Shaped(inodes) && n < |inodes| && k <= e <= INDIRECT
  {
    (if k < e && e > NDIRECT && Slot(inodes, blocks, n, INDIRECT) == 0 then 1 else 0) + Empty(inodes, blocks, n, k, e)
  }

  /** The blocks that a range of bytes lacks. */
  ghost function Lacking(inodes: seq<Inode>, blocks: seq<Block>, n: nat, off: nat, len: nat): nat
    requires Shaped(inodes) && n < |inodes| && off + len <= MAX_FILE_SIZE
  {
    if len == 0 then 0 else RangeInFile(off, len); Wanted(inodes, blocks, n, off / BLOCK_SIZE, Ceil(off + len))
  }

  lemma RangeInFile(off: nat, len: nat)
    requires 0 < len && off + len <= MAX_FILE_SIZE
    ensures off / BLOCK_SIZE < Ceil(off + len) <= INDIRECT
  {
  }

  lemma WantedStep(inodes: seq<Inode>, blocks: seq<Block>, n: nat, k: nat, e: nat)
    requires Shaped(inodes) && n < |inodes| && k < e <= INDIRECT
    ensures Need(inodes, blocks, n, k) <= Wanted(inodes, blocks, n, k, e)
  {
    hide Slot;
  }

  lemma {:induction false} EmptySame(inodes: seq<Inode>, blocks: seq<Block>, inodes': seq<Inode>, blocks': seq<Block>,
                                     n: nat, k: nat, e: nat)
    requires Shaped(inodes) && Shaped(inodes') && n < |inodes| == |inodes'| && k <= e <= INDIRECT
    requires forall j :: k <= j < e ==> Slot(inodes', blocks', n, j) == Slot(inodes, blocks, n, j)
    ensures Empty(inodes', blocks', n, k, e) == Empty(inodes, blocks, n, k, e)
    decreases e - k
  {
    hide Slot;
    if k < e { EmptySame(inodes, blocks, inodes', blocks', n, k + 1, e); }
  }

  lemma WantedAfter(inodes: seq<Inode>, blocks: seq<Block>, inodes': seq<Inode>, blocks': seq<Block>, n: nat, k: nat,
                    e: nat)
    requires Shaped(inodes) && Shaped(inodes') && n < |inodes| && k < e <= INDIRECT
    requires SlotsAround(inodes, blocks, inodes', blocks', n, k)
    ensures |inodes'| == |inodes|
    ensures Wanted(inodes, blocks, n, k, e) == Need(inodes, blocks, n, k) + Wanted(inodes', blocks', n, k + 1, e)
  {
    hide Slot;
    EmptySame(inodes, blocks, inodes', blocks', n, k + 1, e);
  }

  lemma WantedSame(inodes: seq<Inode>, blocks: seq<Block>, blocks': seq<Block>, n: nat, k: nat, e: nat)
    requires Shaped(inodes) && n < |inodes| && k <= e <= INDIRECT && SameSlots(inodes, blocks, blocks')
    ensures Wanted(inodes, blocks', n, k, e) == Wanted(inodes, blocks, n, k, e)
  {
    hide Slot;
    EmptySame(inodes, blocks, inodes, blocks', n, k, e);
  }

  /** After a round either the range is done or the next block begins. */
  lemma NextBlock(off: nat, k: nat, amount: nat, remaining: nat, end: nat)
    requires k == off / BLOCK_SIZE && 0 < remaining && end == off + remaining
    requires amount == if BLOCK_SIZE - off % BLOCK_SIZE < remaining then BLOCK_SIZE - off % BLOCK_SIZE else remaining
    ensures 0 < amount <= remaining
    ensures amount == remaining ==> Ceil(end) == k + 1 && (off + amount) / BLOCK_SIZE <= k + 1
    ensures amount < remaining ==> (off + amount) / BLOCK_SIZE == k + 1 < Ceil(end)
  {
  }

  /** A write with `remaining` bytes to go: the others are in place, and what the range still lacks with
      what was taken is what it lacked. */
  ghost predicate Writing(inodes0: seq<Inode>, blocks0: seq<Block>, free0: nat, inodes: seq<Inode>, blocks: seq<Block>,
                          free: nat, n: nat, offset: nat, data: seq<Byte>, remaining: nat)
  {
    && Shaped(inodes0) && Shaped(inodes) && n < |inodes0| == |inodes| && remaining <= |data|
       && offset + |data| <= MAX_FILE_SIZE
    && BytesOver(inodes0, blocks0, inodes, blocks, n, offset, data[..|data| - remaining])
    && var off := offset + |data| - remaining;
       free0 - free + Lacking(inodes, blocks, n, off, remaining) == Lacking(inodes0, blocks0, n, offset, |data|)
  }

  lemma WriteStart(inodes: seq<Inode>, blocks: seq<Block>, free: nat, n: nat, offset: nat, data: seq<Byte>)
    requires Shaped(inodes) && n < |inodes| && offset + |data| <= MAX_FILE_SIZE
    ensures Writing(inodes, blocks, free, inodes, blocks, free, n, offset, data, |data|)
  {
    hide BytesOver, Lacking;
    BytesOverNone(inodes, blocks, n, offset);
    assert data[..0] == [];
  }

  /** No block for the next part. */
  lemma WriteStops(inodes0: seq<Inode>, blocks0: seq<Block>, free0: nat, mid: seq<Inode>, bmid: seq<Block>, left: nat,
                   inodes: seq<Inode>, blocks: seq<Block>, n: nat, offset: nat, data: seq<Byte>, remaining: nat)
    requires Writing(inodes0, blocks0, free0, mid, bmid, left, n, offset, data, remaining) && remaining > 0
    requires Shaped(inodes) && SameBytes(mid, bmid, inodes, blocks)
    requires (offset + |data| - remaining) / BLOCK_SIZE < INDIRECT
             && left < Need(mid, bmid, n, (offset + |data| - remaining) / BLOCK_SIZE)
    ensures BytesOver(inodes0, blocks0, inodes, blocks, n, offset, data[..|data| - remaining])
    ensures free0 < Lacking(inodes0, blocks0, n, offset, |data|)
  {
    hide BytesOver, SameBytes, Wanted, Need;
    var off := offset + |data| - remaining;
    RangeInFile(off, remaining);
    WantedStep(mid, bmid, n, off / BLOCK_SIZE, Ceil(off + remaining));
    OverUnseen(inodes0, blocks0, mid, bmid, inodes, blocks, n, offset, data[..|data| - remaining]);
  }

  /** One round. */
  lemma WriteRound(inodes0: seq<Inode>, blocks0: seq<Block>, free0: nat, mid: seq<Inode>, bmid: seq<Block>, left: nat,
                   inodes: seq<Inode>, blocks1: seq<Block>, blocks: seq<Block>, free: nat,
                   n: nat, offset: nat, data: seq<Byte>, remaining: nat, amount: nat)
    requires Writing(inodes0, blocks0, free0, mid, bmid, left, n, offset, data, remaining) && remaining > 0
    requires Shaped(inodes) && |inodes| == |mid| && SameBytes(mid, bmid, inodes, blocks1)
             && SameSlots(inodes, blocks1, blocks)
    requires var off := offset + |data| - remaining;
             var k := off / BLOCK_SIZE;
             && amount == (if BLOCK_SIZE - off % BLOCK_SIZE < remaining then BLOCK_SIZE - off % BLOCK_SIZE
                  else remaining)
             && k < INDIRECT && SlotsAround(mid, bmid, inodes, blocks1, n, k) && free == left - Need(mid, bmid, n, k)
             && BytesOver(inodes, blocks1, inodes, blocks, n, k * BLOCK_SIZE + off % BLOCK_SIZE,
                          data[|data| - remaining..|data| - remaining + amount])
    ensures Writing(inodes0, blocks0, free0, inodes, blocks, free, n, offset, data, remaining - amount)
  {
    hide BytesOver, SameBytes, SameSlots, SlotsAround, Need, Wanted;
    var start, off := |data| - remaining, offset + |data| - remaining;
    var k := off / BLOCK_SIZE;
    RangeInFile(off, remaining);
    NextBlock(off, k, amount, remaining, offset + |data|);
    OverUnseen(inodes0, blocks0, mid, bmid, inodes, blocks1, n, offset, data[..start]);
    assert k * BLOCK_SIZE + off % BLOCK_SIZE == off == offset + |data[..start]|;
    OverThen(inodes0, blocks0, inodes, blocks1, inodes, blocks, n, offset, data[..start], data[start..start + amount]);
    assert data[..start] + data[start..start + amount] == data[..start + amount];
    var e := Ceil(offset + |data|);
    WantedAfter(mid, bmid, inodes, blocks1, n, k, e);
    WantedSame(inodes, blocks1, blocks, n, k + 1, e);
    WantedNone(inodes, blocks, n, e);
  }

  lemma WantedNone(inodes: seq<Inode>, blocks: seq<Block>, n: nat, e: nat)
    requires Shaped(inodes) && n < |inodes| && e <= INDIRECT
    ensures Wanted(inodes, blocks, n, e, e) == 0
  {
  }

  lemma WriteEnds(inodes0: seq<Inode>, blocks0: seq<Block>, free0: nat, inodes: seq<Inode>, blocks: seq<Block>,
                  free: nat, n: nat, offset: nat, data: seq<Byte>)
    requires Writing(inodes0, blocks0, free0, inodes, blocks, free, n, offset, data, 0)
    ensures BytesOver(inodes0, blocks0, inodes, blocks, n, offset, data)
    ensures free0 - free == Lacking(inodes0, blocks0, n, offset, |data|)
  {
    hide BytesOver;
    assert data[..|data|] == data;
  }

  ghost predicate Resized(inodes: seq<Inode>, inodes': seq<Inode>, n: nat, size: nat) {
    && |inodes'| == |inodes| && n < |inodes| && inodes' == inodes[n := inodes'[n]]
    && inodes'[n].size == size
    && inodes'[n] == inodes[n].(size := inodes'[n].size, direct := inodes'[n].direct, indirect := inodes'[n].indirect)
  }

  lemma BytesOverNone(inodes: seq<Inode>, blocks: seq<Block>, n: nat, start: nat)
    requires Shaped(inodes)
    ensures BytesOver(inodes, blocks, inodes, blocks, n, start, [])
  {
    hide ByteAt;
  }

  lemma OverUnseen(inodes: seq<Inode>, blocks: seq<Block>, mid: seq<Inode>, bmid: seq<Block>, inodes': seq<Inode>,
                   blocks': seq<Block>, n: nat, start: nat, data: seq<Byte>)
    requires Shaped(inodes) && Shaped(mid) && Shaped(inodes')
    requires BytesOver(inodes, blocks, mid, bmid, n, start, data) && SameBytes(mid, bmid, inodes', blocks')
    ensures BytesOver(inodes, blocks, inodes', blocks', n, start, data)
  {
    hide ByteAt;
  }

  /** The size says nothing about the slots. */
  lemma SizeUnseen(inodes: seq<Inode>, blocks: seq<Block>, st: seq<Word>, n: nat, size: Word)
    requires Owns(inodes, blocks, st) && n < |inodes|
    ensures var inodes' := inodes[n := inodes[n].(size := size)];
            Shaped(inodes') && Owns(inodes', blocks, st) && SameBytes(inodes, blocks, inodes', blocks)
  {
    var inodes' := inodes[n := inodes[n].(size := size)];
    assert forall m, j :: 0 <= m < |inodes| && 0 <= j <= INDIRECT ==>
             Slot(inodes', blocks, m, j) == Slot(inodes, blocks, m, j) by {
      hide WordAt;
    }
    SlotsDecide(inodes, inodes', blocks, st);
  }

  lemma SlotsDecide(inodes: seq<Inode>, inodes': seq<Inode>, blocks: seq<Block>, st: seq<Word>)
    requires Owns(inodes, blocks, st) && Shaped(inodes') && |inodes'| == |inodes|
    requires forall m, j :: 0 <= m < |inodes| && 0 <= j <= INDIRECT ==>
               Slot(inodes', blocks, m, j) == Slot(inodes, blocks, m, j)
    ensures Owns(inodes', blocks, st) && SameBytes(inodes, blocks, inodes', blocks)
  {
    hide Slot;
    forall m, off | 0 <= m < |inodes| && 0 <= off < MAX_FILE_SIZE
      ensures ByteAt(inodes', blocks, m, off) == ByteAt(inodes, blocks, m, off)
    {
      assert Slot(inodes', blocks, m, off / BLOCK_SIZE) == Slot(inodes, blocks, m, off / BLOCK_SIZE);
    }
  }

  ghost function FileBytes(inodes: seq<Inode>, blocks: seq<Block>, n: nat, offset: nat, len: nat): seq<Byte>
    requires Shaped(inodes) && n < |inodes| && offset + len <= MAX_FILE_SIZE
  {
    seq<Byte>(len, i requires 0 <= i < len => ByteAt(inodes, blocks, n, offset + i))
  }

  lemma PartBytes(inodes: seq<Inode>, blocks: seq<Block>, n: nat, off: nat, amount: nat, part: seq<Byte>)
    requires Shaped(inodes) && n < |inodes| && off + amount <= MAX_FILE_SIZE && off / BLOCK_SIZE < INDIRECT
    requires off % BLOCK_SIZE + amount <= BLOCK_SIZE && |part| == amount
    requires var b := Slot(inodes, blocks, n, off / BLOCK_SIZE);
             && (b != 0 ==> b < |blocks|)
             && part == if b == 0 then seq(amount, _ => 0) else blocks[b][off % BLOCK_SIZE..off % BLOCK_SIZE + amount]
    ensures forall i :: 0 <= i < amount ==> part[i] == ByteAt(inodes, blocks, n, off + i)
  {
    hide Slot;
    forall i | 0 <= i < amount
      ensures part[i] == ByteAt(inodes, blocks, n, off + i)
    {
      assert (off + i) / BLOCK_SIZE == off / BLOCK_SIZE && (off + i) % BLOCK_SIZE == off % BLOCK_SIZE + i;
    }
  }

  /** Reading back what was written: the range gives `data`, any other range what it gave before. */
  lemma ReadAfterWrite(inodes: seq<Inode>, blocks: seq<Block>, inodes': seq<Inode>, blocks': seq<Block>,
                       n: nat, start: nat, data: seq<Byte>, m: nat, offset: nat, len: nat)
    requires Shaped(inodes) && Shaped(inodes') && n < |inodes| && m < |inodes| && offset + len <= MAX_FILE_SIZE
    requires BytesOver(inodes, blocks, inodes', blocks', n, start, data)
    ensures m == n && offset == start && len == |data| ==> FileBytes(inodes', blocks', m, offset, len) == data
    ensures m != n || offset + len <= start || start + |data| <= offset ==>
              FileBytes(inodes', blocks', m, offset, len) == FileBytes(inodes, blocks, m, offset, len)
  {
    hide ByteAt;
    forall i | 0 <= i < len
      ensures FileBytes(inodes', blocks', m, offset, len)[i] ==
                if m == n && start <= offset + i < start + |data| then data[offset + i - start]
                      else ByteAt(inodes, blocks, m, offset + i)
    {
    }
  }

  function NoBlocks(): seq<Word> {
    seq(NDIRECT, _ => 0)
  }

  function NonZero(ws: seq<Word>): seq<Word> {
    if ws == [] then [] else (if ws[0] == 0 then [] else [ws[0]]) + NonZero(ws[1..])
  }

  lemma {:induction false} NonZeroSnoc(ws: seq<Word>, w: Word)
    ensures NonZero(ws + [w]) == NonZero(ws) + if w == 0 then [] else [w]
  {
    if ws != [] {
      NonZeroSnoc(ws[1..], w);
      assert (ws + [w])[1..] == ws[1..] + [w];
    }
  }

  /** The other files see what they saw. */
  ghost predicate Others(inodes: seq<Inode>, blocks: seq<Block>, inodes': seq<Inode>, blocks': seq<Block>, n: nat)
    requires Shaped(inodes) && Shaped(inodes')
  {
    && |inodes'| == |inodes|
    && forall m, off :: 0 <= m < |inodes| && m != n && 0 <= off < MAX_FILE_SIZE ==>
         ByteAt(inodes', blocks', m, off) == ByteAt(inodes, blocks, m, off)
  }

  lemma OthersRefl(inodes: seq<Inode>, blocks: seq<Block>, n: nat)
    requires Shaped(inodes)
    ensures Others(inodes, blocks, inodes, blocks, n)
  {
    hide ByteAt;
  }

  lemma OthersThen(inodes: seq<Inode>, blocks: seq<Block>, mid: seq<Inode>, bmid: seq<Block>, inodes': seq<Inode>,
                   blocks': seq<Block>, n: nat)
    requires Shaped(inodes) && Shaped(mid) && Shaped(inodes')
    requires Others(inodes, blocks, mid, bmid, n) && Others(mid, bmid, inodes', blocks', n)
    ensures Others(inodes, blocks, inodes', blocks', n)
  {
    hide ByteAt;
    forall m, off | 0 <= m < |inodes| && m != n && 0 <= off < MAX_FILE_SIZE
      ensures ByteAt(inodes', blocks', m, off) == ByteAt(inodes, blocks, m, off)
    {
      assert ByteAt(mid, bmid, m, off) == ByteAt(inodes, blocks, m, off);
    }
  }

  ghost predicate OnlyDirect(inodes: seq<Inode>, inodes': seq<Inode>, n: nat, i: nat) {
    && |inodes'| == |inodes| && n < |inodes| && |inodes[n].direct| == |inodes'[n].direct| == NDIRECT && i <= NDIRECT
    && inodes' == inodes[n := inodes[n].(direct := inodes'[n].direct)]
    && forall j :: 0 <= j < NDIRECT ==> inodes'[n].direct[j] == if j < i then 0 else inodes[n].direct[j]
  }

  lemma OnlyDirectStart(inodes: seq<Inode>, n: nat)
    requires n < |inodes| && |inodes[n].direct| == NDIRECT
    ensures OnlyDirect(inodes, inodes, n, 0)
  {
  }

  lemma OnlyDirectStep(inodes: seq<Inode>, inodes': seq<Inode>, n: nat, i: nat)
    requires OnlyDirect(inodes, inodes', n, i) && i < NDIRECT
    ensures |inodes'| == |inodes| && n < |inodes| && |inodes[n].direct| == |inodes'[n].direct| == NDIRECT
    ensures inodes'[n].kind == inodes[n].kind && inodes'[n].indirect == inodes[n].indirect
    ensures inodes[n].direct[..i + 1] == inodes[n].direct[..i] + [inodes'[n].direct[i]]
    ensures inodes'[n].direct[i] == 0 ==> OnlyDirect(inodes, inodes', n, i + 1)
    ensures OnlyDirect(inodes, inodes'[n := inodes'[n].(direct := inodes'[n].direct[i := 0])], n, i + 1)
  {
  }

  lemma OnlyDirectEnd(inodes: seq<Inode>, inodes': seq<Inode>, n: nat)
    requires OnlyDirect(inodes, inodes', n, NDIRECT)
    ensures |inodes'| == |inodes| && n < |inodes| && inodes' == inodes[n := inodes[n].(direct := NoBlocks())]
    ensures |inodes[n].direct| == NDIRECT && inodes[n].direct[..NDIRECT] == inodes[n].direct
  {
    assert inodes'[n].direct == NoBlocks();
  }

  lemma NoNonZero()
    ensures NonZero([]) == []
  {
  }

  lemma InodeKept(inodes: seq<Inode>, head: Word, list: seq<Word>, n: nat, x: Inode)
    requires FreeInodes(inodes, head, list) && n < |inodes| && inodes[n].kind != FreeInode
    ensures FreeInodes(inodes[n := x], head, list)
  {
    FreeInodesKinds(inodes, head, list);
    FreeInodesFrame(inodes, head, list, n, x);
  }

  /** A direct block is not the file's indirect block. */
  lemma IndirectKept(inodes: seq<Inode>, blocks: seq<Block>, st: seq<Word>, n: nat)
    requires Owns(inodes, blocks, st) && n < |inodes|
    ensures inodes[n].kind != FreeInode ==>
              forall i :: 0 <= i < NDIRECT && inodes[n].direct[i] != 0 && IsFile(inodes[n]) ==>
              inodes[n].direct[i] != inodes[n].indirect
    ensures inodes[n].indirect != 0 && IsFile(inodes[n]) ==> inodes[n].indirect < |blocks|
  {
    hide WordAt;
    forall i | 0 <= i < NDIRECT && inodes[n].direct[i] != 0 && IsFile(inodes[n])
      ensures inodes[n].direct[i] != inodes[n].indirect
    {
      assert Slot(inodes, blocks, n, i) == inodes[n].direct[i];
      assert Slot(inodes, blocks, n, INDIRECT) == inodes[n].indirect;
    }
    if inodes[n].indirect != 0 && IsFile(inodes[n]) {
      assert Slot(inodes, blocks, n, INDIRECT) == inodes[n].indirect;
    }
  }

  /** One direct block goes from its slot to the free list. */
  lemma DirectFreed(inodes: seq<Inode>, f: Free, blocks: seq<Block>, st: seq<Word>, n: nat, i: nat)
    requires Owns(inodes, blocks, st) && Holds(f, blocks, st) && n < |inodes| && inodes[n].kind != FreeInode
             && i < NDIRECT
    requires inodes[n].direct[i] != 0
    ensures var b := inodes[n].direct[i];
            var inodes' := inodes[n := inodes[n].(direct := inodes[n].direct[i := 0])];
            && 0 < b < |blocks| && b != NONE && b !in st && Shaped(inodes')
            && var (f', blocks') := Pushed(f, blocks, b);
               && |blocks'| == |blocks| && Owns(inodes', blocks', st + [b])
                  && Others(inodes, blocks, inodes', blocks', n)
               && (inodes[n].indirect != 0 && IsFile(inodes[n]) ==>
                     inodes[n].indirect < |blocks| && blocks'[inodes[n].indirect] == blocks[inodes[n].indirect])
  {
    hide Slot, ByteAt, SetWords, Unowned, SlotsBut, Chain;
    IndirectKept(inodes, blocks, st, n);
    var b := inodes[n].direct[i];
    var inodes' := inodes[n := inodes[n].(direct := inodes[n].direct[i := 0])];
    DirectSlot(inodes, blocks, n, i);
    LinkDirect(inodes, blocks, n, i, 0);
    OwnsLess(inodes, blocks, inodes', st, n, i);
    OwnsPush(inodes', f, blocks, st, b);
    OthersUnlinked(inodes, blocks, inodes', n, i);
    var (f', blocks') := Pushed(f, blocks, b);
    OthersThen(inodes, blocks, inodes', blocks, inodes', blocks', n);
  }

  lemma DirectSlot(inodes: seq<Inode>, blocks: seq<Block>, n: nat, i: nat)
    requires Shaped(inodes) && n < |inodes| && inodes[n].kind != FreeInode && i < NDIRECT
    ensures Slot(inodes, blocks, n, i) == inodes[n].direct[i]
  {
  }

  lemma OthersUnlinked(inodes: seq<Inode>, blocks: seq<Block>, inodes': seq<Inode>, n: nat, i: nat)
    requires Shaped(inodes) && Shaped(inodes') && n < |inodes| && i <= INDIRECT
    requires SlotsBut(inodes, blocks, inodes', blocks, n, i, 0)
    ensures Others(inodes, blocks, inodes', blocks, n)
  {
    hide Slot;
    forall m, off | 0 <= m < |inodes| && m != n && 0 <= off < MAX_FILE_SIZE
      ensures ByteAt(inodes', blocks, m, off) == ByteAt(inodes, blocks, m, off)
    {
      assert Slot(inodes', blocks, m, off / BLOCK_SIZE) == Slot(inodes, blocks, m, off / BLOCK_SIZE);
    }
  }

  lemma OwnsShaped(inodes: seq<Inode>, blocks: seq<Block>, st: seq<Word>)
    requires Owns(inodes, blocks, st)
    ensures Shaped(inodes) && |blocks| <= NONE
  {
  }

  lemma PendingFacts(inodes: seq<Inode>, blocks: seq<Block>, st: seq<Word>, d: Word, from: nat)
    requires Shaped(inodes) && Pending(inodes, blocks, st, d, from)
    ensures d < |blocks|
  {
  }

  lemma WordsAt(b: Block, i: nat)
    requires i < NWORDS
    ensures Words(b, NWORDS)[i] == WordAt(b, i)
  {
  }

  lemma PendingStep(inodes: seq<Inode>, f: Free, blocks: seq<Block>, st: seq<Word>, d: Word, i: nat)
    requires Holds(f, blocks, st) && Owns(inodes, blocks, st) && Pending(inodes, blocks, st, d, i) && i < NWORDS
    ensures d < |blocks| && WordAt(blocks[d], i) != d
    ensures var w := WordAt(blocks[d], i);
            if w == 0 then Pending(inodes, blocks, st, d, i + 1)
            else
              && w < |blocks| && w != NONE && w !in st
              && var (f', blocks') := Pushed(f, blocks, w);
                 && |blocks'| == |blocks| && blocks'[d] == blocks[d]
                 && Owns(inodes, blocks', st + [w]) && Pending(inodes, blocks', st + [w], d, i + 1)
                 && SameBytes(inodes, blocks, inodes, blocks')
  {
    hide Slot, ByteAt, Chain, WordAt, SetWords, Unowned;
    var w := WordAt(blocks[d], i);
    if w != 0 {
      assert Leaving(inodes, blocks, st, d, w);
      OwnsPush(inodes, f, blocks, st, w);
      var (f', blocks') := Pushed(f, blocks, w);
      assert blocks'[d] == blocks[d];
      UnownedKept(inodes, blocks, blocks', d);
      forall j | i + 1 <= j < NWORDS && WordAt(blocks'[d], j) != 0
        ensures Leaving(inodes, blocks', st + [w], d, WordAt(blocks'[d], j))
      {
        var x := WordAt(blocks[d], j);
        assert Leaving(inodes, blocks, st, d, x) && x != w;
        UnownedKept(inodes, blocks, blocks', x);
      }
    }
  }

  lemma UnownedKept(inodes: seq<Inode>, blocks: seq<Block>, blocks': seq<Block>, b: Word)
    requires Shaped(inodes) && SameSlots(inodes, blocks, blocks') && Unowned(inodes, blocks, b)
    ensures Unowned(inodes, blocks', b)
  {
    hide Slot;
  }

  lemma PendingEnd(inodes: seq<Inode>, f: Free, blocks: seq<Block>, st: seq<Word>, d: Word)
    requires Holds(f, blocks, st) && Owns(inodes, blocks, st) && Pending(inodes, blocks, st, d, NWORDS)
    ensures d < |blocks| && d != NONE && d !in st
    ensures var (f', blocks') := Pushed(f, blocks, d);
            && |blocks'| == |blocks| && Owns(inodes, blocks', st + [d]) && SameBytes(inodes, blocks, inodes, blocks')
  {
    hide Slot, ByteAt, Holds, WordAt, SetWords;
    OwnsPush(inodes, f, blocks, st, d);
  }

  /** The blocks of an inode in the order in which `s5_free_inode` frees them. */
  function BlocksOf(blocks: seq<Block>, ino: Inode): seq<Word>
    requires IsFile(ino) && ino.indirect != 0 ==> ino.indirect < |blocks|
  {
    NonZero(ino.direct) + if IsFile(ino)
        && ino.indirect != 0 then NonZero(Words(blocks[ino.indirect], NWORDS)) + [ino.indirect] else []
  }

  lemma DetachOthers(inodes: seq<Inode>, blocks: seq<Block>, n: nat)
    requires Shaped(inodes) && n < |inodes| && IsFile(inodes[n])
    ensures var g := inodes[n := inodes[n].(indirect := 0)];
            Shaped(g) && Others(inodes, blocks, g, blocks, n)
  {
    hide Slot;
    var g := inodes[n := inodes[n].(indirect := 0)];
    DetachSlots(inodes, blocks, n);
    forall m, off | 0 <= m < |inodes| && m != n && 0 <= off < MAX_FILE_SIZE
      ensures ByteAt(g, blocks, m, off) == ByteAt(inodes, blocks, m, off)
    {
      assert Slot(g, blocks, m, off / BLOCK_SIZE) == Slot(inodes, blocks, m, off / BLOCK_SIZE);
    }
  }

  lemma OthersBytes(inodes: seq<Inode>, blocks: seq<Block>, g: seq<Inode>, blocks': seq<Block>, n: nat)
    requires Shaped(inodes) && Shaped(g) && Others(inodes, blocks, g, blocks, n) && SameBytes(g, blocks, g, blocks')
    ensures Others(inodes, blocks, g, blocks', n)
  {
    hide ByteAt;
    forall m, off | 0 <= m < |inodes| && m != n && 0 <= off < MAX_FILE_SIZE
      ensures ByteAt(g, blocks', m, off) == ByteAt(inodes, blocks, m, off)
    {
      assert ByteAt(g, blocks, m, off) == ByteAt(inodes, blocks, m, off);
    }
  }

  /** A device inode's number, or no indirect block at all, owns nothing. */
  lemma NothingIndirect(inodes: seq<Inode>, blocks: seq<Block>, st: seq<Word>, n: nat)
    requires Owns(inodes, blocks, st) && n < |inodes| && (!IsFile(inodes[n]) || inodes[n].indirect == 0)
    ensures var g := inodes[n := inodes[n].(indirect := 0)];
            Shaped(g) && Owns(g, blocks, st) && Others(inodes, blocks, g, blocks, n)
  {
    var g := inodes[n := inodes[n].(indirect := 0)];
    assert forall m, j :: 0 <= m < |inodes| && 0 <= j <= INDIRECT ==>
             Slot(g, blocks, m, j) == Slot(inodes, blocks, m, j) by {
      hide WordAt;
    }
    SlotsDecide(inodes, g, blocks, st);
  }

  /** An inode without blocks goes to the front of the free ones. */
  lemma InodeFreed(inodes: seq<Inode>, head: Word, list: seq<Word>, g: seq<Inode>, blocks: seq<Block>, st: seq<Word>,
                   n: Word)
    requires FreeInodes(inodes, head, list) && NoDup(list) && n < |inodes| && inodes[n].kind != FreeInode
             && inodes[n].number == n
    requires n != NONE && g == inodes[n := inodes[n].(indirect := 0)] && inodes[n].direct == NoBlocks()
             && Owns(g, blocks, st)
    ensures var inodes' := g[n := g[n].(kind := FreeInode, size := head)];
            && FreeInodes(inodes', n, [n] + list) && NoDup([n] + list)
            && Shaped(inodes') && Owns(inodes', blocks, st) && Others(g, blocks, inodes', blocks, n)
  {
    var inodes' := g[n := g[n].(kind := FreeInode, size := head)];
    FreeInodesKinds(inodes, head, list);
    FreeInodesFrame(inodes, head, list, n, inodes'[n]);
    assert inodes' == inodes[n := inodes'[n]];
    NoDupCons(list, n);
    assert ([n] + list)[1..] == list;
    assert forall m, j :: 0 <= m < |g| && 0 <= j <= INDIRECT ==>
             Slot(inodes', blocks, m, j) == Slot(g, blocks, m, j) by {
      hide WordAt;
    }
    SlotsDecide(g, inodes', blocks, st);
  }

  lemma NewInode(inodes: seq<Inode>, blocks: seq<Block>, st: seq<Word>, n: nat, x: Inode)
    requires Owns(inodes, blocks, st) && n < |inodes| && inodes[n].kind == FreeInode
    requires x.kind != FreeInode && x.direct == NoBlocks() && (IsFile(x) ==> x.indirect == 0)
    ensures var inodes' := inodes[n := x];
            Shaped(inodes') && Owns(inodes', blocks, st) && SameBytes(inodes, blocks, inodes', blocks)
  {
    var inodes' := inodes[n := x];
    assert forall m, j :: 0 <= m < |inodes| && 0 <= j <= INDIRECT ==>
             Slot(inodes', blocks, m, j) == Slot(inodes, blocks, m, j) by {
      hide WordAt;
    }
    SlotsDecide(inodes, inodes', blocks, st);
  }
}
