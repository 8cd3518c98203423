/** Which blocks the files of an S5 file system own, and the bytes they see through them
    (kernel/include/fs/s5fs/s5fs.h, tools/fsmaker/api.py).

    Slots 0 to 27 of an inode are its direct blocks, the next 1024 the entries of its indirect block,
    and one more is the indirect block itself. */
module S5Ownership {
  import opened Bytes
  import opened Lists
  import opened S5Blocks

  datatype Kind = FreeInode | Data | Dir | Chr | Blk

  /** `size` is the link of the free inode list while the inode is free, `indirect` the device of a
      device inode. */
  datatype Inode = Inode(kind: Kind, size: Word, number: Word, links: nat, direct: seq<Word>, indirect: Word)

  const NDIRECT: nat := 28
  const INDIRECT: nat := NDIRECT + NWORDS
  const MAX_FILE_SIZE: nat := INDIRECT * BLOCK_SIZE

  predicate IsFile(ino: Inode) {
    ino.kind == Data || ino.kind == Dir
  }

  /** The block in a slot, 0 for none. */
  function SlotOf(blocks: seq<Block>, ino: Inode, i: nat): Word
    requires |ino.direct| == NDIRECT && i <= INDIRECT
  {
    if ino.kind == FreeInode then 0
    else if i < NDIRECT then ino.direct[i]
    else if !IsFile(ino) then 0
    else if i == INDIRECT then ino.indirect
    else if ino.indirect == 0 || ino.indirect >= |blocks| then 0
    else WordAt(blocks[ino.indirect], i - NDIRECT)
  }

  predicate Shaped(inodes: seq<Inode>) {
    forall n :: 0 <= n < |inodes| ==> |inodes[n].direct| == NDIRECT
  }

  function Slot(inodes: seq<Inode>, blocks: seq<Block>, n: nat, i: nat): Word
    requires Shaped(inodes) && n < |inodes| && i <= INDIRECT
  {
    SlotOf(blocks, inodes[n], i)
  }

  /** Every block in a slot is on the disk, in no other slot, and not free; no free block is listed
      twice. */
  ghost predicate Owns(inodes: seq<Inode>, blocks: seq<Block>, st: seq<Word>) {
    && Shaped(inodes) && |blocks| <= NONE && NoDup(st)
    && (forall b :: b in st ==> 0 < b < |blocks|)
    && (forall n, i :: 0 <= n < |inodes| && 0 <= i <= INDIRECT && Slot(inodes, blocks, n, i) != 0 ==>
          Slot(inodes, blocks, n, i) < |blocks| && Slot(inodes, blocks, n, i) !in st)
    && Apart(inodes, blocks)
  }

  ghost predicate Apart(inodes: seq<Inode>, blocks: seq<Block>)
    requires Shaped(inodes)
  {
    forall n, i, m, j | 0 <= n < |inodes| && 0 <= i <= INDIRECT && 0 <= m < |inodes| && 0 <= j <= INDIRECT ::
      Slot(inodes, blocks, n, i) != 0 && Slot(inodes, blocks, n, i) == Slot(inodes, blocks, m, j) ==> n == m && i == j
  }

  /** No slot has block `b`. */
  ghost predicate Unowned(inodes: seq<Inode>, blocks: seq<Block>, b: Word)
    requires Shaped(inodes)
  {
    forall n, i :: 0 <= n < |inodes| && 0 <= i <= INDIRECT ==> Slot(inodes, blocks, n, i) != b
  }

  /** The byte of inode `n` at an offset; a slot without a block reads as zeros. */
  function ByteAt(inodes: seq<Inode>, blocks: seq<Block>, n: nat, off: nat): Byte
    requires Shaped(inodes) && n < |inodes| && off < MAX_FILE_SIZE
  {
    var b := Slot(inodes, blocks, n, off / BLOCK_SIZE);
    if b == 0 || b >= |blocks| then 0 else blocks[b][off % BLOCK_SIZE]
  }

  /** Same slots everywhere but in slot `i` of inode `n`, which has `b`. */
  ghost predicate SlotsBut(inodes: seq<Inode>, blocks: seq<Block>, inodes': seq<Inode>, blocks': seq<Block>,
                           n: nat, i: nat, b: Word)
    requires Shaped(inodes) && Shaped(inodes') && n < |inodes| && i <= INDIRECT
  {
    && |inodes'| == |inodes| && |blocks'| == |blocks|
    && forall m, j :: 0 <= m < |inodes| && 0 <= j <= INDIRECT ==>
         Slot(inodes', blocks', m, j) == if m == n && j == i then b else Slot(inodes, blocks, m, j)
  }

  /** Taking the top of the stack leaves it unowned. */
  lemma OwnsPop(inodes: seq<Inode>, blocks: seq<Block>, st: seq<Word>)
    requires Owns(inodes, blocks, st) && st != []
    ensures var b := st[|st| - 1];
            Owns(inodes, blocks, st[..|st| - 1]) && 0 < b < |blocks| && Unowned(inodes, blocks, b)
                && b !in st[..|st| - 1]
  {
    hide Slot;
    var rest := st[..|st| - 1];
    assert NoDup(rest);
    assert forall x :: x in rest ==> x in st;
    assert st[|st| - 1] in st;
    assert Owns(inodes, blocks, rest);
  }

  /** Putting an unowned block into an empty slot. */
  lemma OwnsMore(inodes: seq<Inode>, blocks: seq<Block>, inodes': seq<Inode>, blocks': seq<Block>, st: seq<Word>,
                 n: nat, i: nat, b: Word)
    requires Owns(inodes, blocks, st) && Shaped(inodes') && n < |inodes| && i <= INDIRECT
    requires SlotsBut(inodes, blocks, inodes', blocks', n, i, b)
    requires 0 < b < |blocks| && Unowned(inodes, blocks, b) && b !in st
    ensures Owns(inodes', blocks', st)
  {
    hide Slot;
  }

  /** Slots are read through the indirect blocks alone. */
  lemma SlotsFrame(inodes: seq<Inode>, blocks: seq<Block>, b: nat, x: Block)
    requires Shaped(inodes) && b < |blocks|
    requires forall n :: 0 <= n < |inodes| && Slot(inodes, blocks, n, INDIRECT) != 0 ==>
               Slot(inodes, blocks, n, INDIRECT) != b
    ensures forall n, i :: 0 <= n < |inodes| && 0 <= i <= INDIRECT ==>
              Slot(inodes, blocks[b := x], n, i) == Slot(inodes, blocks, n, i)
  {
    hide WordAt;
    forall n, i | 0 <= n < |inodes| && 0 <= i <= INDIRECT
      ensures Slot(inodes, blocks[b := x], n, i) == Slot(inodes, blocks, n, i)
    {
      assert Slot(inodes, blocks, n, INDIRECT) != 0 ==> Slot(inodes, blocks, n, INDIRECT) != b;
    }
  }

  /** A block in no slot may change without anyone seeing it. */
  lemma UnownedFrame(inodes: seq<Inode>, blocks: seq<Block>, st: seq<Word>, b: nat, x: Block)
    requires Owns(inodes, blocks, st) && 0 < b < |blocks| && Unowned(inodes, blocks, b)
    ensures Owns(inodes, blocks[b := x], st) && Unowned(inodes, blocks[b := x], b)
    ensures forall n, i :: 0 <= n < |inodes| && 0 <= i <= INDIRECT ==>
              Slot(inodes, blocks[b := x], n, i) == Slot(inodes, blocks, n, i)
    ensures forall n, off :: 0 <= n < |inodes| && 0 <= off < MAX_FILE_SIZE ==>
              ByteAt(inodes, blocks[b := x], n, off) == ByteAt(inodes, blocks, n, off)
  {
    hide Slot;
    SlotsFrame(inodes, blocks, b, x);
    var blocks' := blocks[b := x];
    assert forall n, i :: 0 <= n < |inodes| && 0 <= i <= INDIRECT ==>
             Slot(inodes, blocks', n, i) == Slot(inodes, blocks, n, i);
    assert Unowned(inodes, blocks', b) && Owns(inodes, blocks', st);
    forall n, off | 0 <= n < |inodes| && 0 <= off < MAX_FILE_SIZE
      ensures ByteAt(inodes, blocks[b := x], n, off) == ByteAt(inodes, blocks, n, off)
    {
      var k := off / BLOCK_SIZE;
      assert Slot(inodes, blocks[b := x], n, k) == Slot(inodes, blocks, n, k) != b;
    }
  }

  // ----- linking a block into a slot -----

  lemma LinkDirect(inodes: seq<Inode>, blocks: seq<Block>, n: nat, k: nat, b: Word)
    requires Shaped(inodes) && n < |inodes| && inodes[n].kind != FreeInode && k < NDIRECT
    ensures var inodes' := inodes[n := inodes[n].(direct := inodes[n].direct[k := b])];
            Shaped(inodes') && SlotsBut(inodes, blocks, inodes', blocks, n, k, b)
  {
    hide WordAt;
  }

  /** A zeroed block as indirect block lists no entries, as did having none. */
  lemma LinkIndirect(inodes: seq<Inode>, blocks: seq<Block>, n: nat, b: Word)
    requires Shaped(inodes) && n < |inodes| && IsFile(inodes[n]) && inodes[n].indirect == 0
    requires 0 < b < |blocks| && blocks[b] == Zeros
    ensures var inodes' := inodes[n := inodes[n].(indirect := b)];
            Shaped(inodes') && SlotsBut(inodes, blocks, inodes', blocks, n, INDIRECT, b)
  {
    hide WordAt;
    var inodes' := inodes[n := inodes[n].(indirect := b)];
    forall m, j | 0 <= m < |inodes| && 0 <= j <= INDIRECT
      ensures Slot(inodes', blocks, m, j) == if m == n && j == INDIRECT then b else Slot(inodes, blocks, m, j)
    {
      if m == n && NDIRECT <= j < INDIRECT { ZeroWord(j - NDIRECT); }
    }
  }

  lemma LinkEntry(inodes: seq<Inode>, blocks: seq<Block>, st: seq<Word>, n: nat, k: nat, b: Word)
    requires Owns(inodes, blocks, st) && n < |inodes| && IsFile(inodes[n]) && NDIRECT <= k < INDIRECT
    requires 0 < inodes[n].indirect < |blocks|
    ensures var d := inodes[n].indirect;
            SlotsBut(inodes, blocks, inodes, blocks[d := SetWord(blocks[d], k - NDIRECT, b)], n, k, b)
  {
    hide WordAt, SetWord;
    var d := inodes[n].indirect;
    var blocks' := blocks[d := SetWord(blocks[d], k - NDIRECT, b)];
    assert Slot(inodes, blocks, n, INDIRECT) == d;
    forall m, j | 0 <= m < |inodes| && 0 <= j <= INDIRECT
      ensures Slot(inodes, blocks', m, j) == if m == n && j == k then b else Slot(inodes, blocks, m, j)
    {
      assert m != n ==> Slot(inodes, blocks, m, INDIRECT) != d;
      if m == n && NDIRECT <= j < INDIRECT {
        WordAfterSet(blocks[d], k - NDIRECT, b, j - NDIRECT);
      }
    }
    assert SlotsBut(inodes, blocks, inodes, blocks', n, k, b);
  }

  /** The data blocks as before. */
  ghost predicate DataKept(inodes: seq<Inode>, blocks: seq<Block>, blocks': seq<Block>)
    requires Shaped(inodes)
  {
    && |blocks'| == |blocks|
    && forall m, j :: 0 <= m < |inodes| && 0 <= j < INDIRECT && 0 < Slot(inodes, blocks, m, j) < |blocks| ==>
         blocks'[Slot(inodes, blocks, m, j)] == blocks[Slot(inodes, blocks, m, j)]
  }

  ghost predicate SameBytes(inodes: seq<Inode>, blocks: seq<Block>, inodes': seq<Inode>, blocks': seq<Block>)
    requires Shaped(inodes) && Shaped(inodes')
  {
    && |inodes'| == |inodes|
    && forall m, off :: 0 <= m < |inodes| && 0 <= off < MAX_FILE_SIZE ==>
         ByteAt(inodes', blocks', m, off) == ByteAt(inodes, blocks, m, off)
  }

  /** Filling an empty slot, a data slot with a zeroed block, is not seen. */
  lemma LinkUnseen(inodes: seq<Inode>, blocks: seq<Block>, inodes': seq<Inode>, blocks': seq<Block>, n: nat, k: nat,
                   b: Word)
    requires Shaped(inodes) && Shaped(inodes') && n < |inodes| && k <= INDIRECT
    requires SlotsBut(inodes, blocks, inodes', blocks', n, k, b) && DataKept(inodes, blocks, blocks')
    requires Slot(inodes, blocks, n, k) == 0 && 0 < b < |blocks| && (k < INDIRECT ==> blocks'[b] == Zeros)
    ensures SameBytes(inodes, blocks, inodes', blocks')
  {
    hide Slot;
    forall m, off | 0 <= m < |inodes| && 0 <= off < MAX_FILE_SIZE
      ensures ByteAt(inodes', blocks', m, off) == ByteAt(inodes, blocks, m, off)
    {
      var j := off / BLOCK_SIZE;
      assert Slot(inodes', blocks', m, j) == if m == n && j == k then b else Slot(inodes, blocks, m, j);
    }
  }

  // ----- storing bytes -----

  function Overlay(b: Block, off: nat, data: seq<Byte>): Block
    requires off + |data| <= BLOCK_SIZE
  {
    b[..off] + data + b[off + |data|..]
  }

  /** The bytes of inode `n` with `data` over those from `start`. */
  ghost predicate BytesOver(inodes: seq<Inode>, blocks: seq<Block>, inodes': seq<Inode>, blocks': seq<Block>,
                            n: nat, start: nat, data: seq<Byte>)
    requires Shaped(inodes) && Shaped(inodes')
  {
    && |inodes'| == |inodes|
    && forall m, off :: 0 <= m < |inodes| && 0 <= off < MAX_FILE_SIZE ==>
         ByteAt(inodes', blocks', m, off) ==
           if m == n && start <= off < start + |data| then data[off - start] else ByteAt(inodes, blocks, m, off)
  }

  lemma Store(inodes: seq<Inode>, blocks: seq<Block>, st: seq<Word>, n: nat, k: nat, off: nat, data: seq<Byte>)
    requires Owns(inodes, blocks, st) && n < |inodes| && k < INDIRECT && off + |data| <= BLOCK_SIZE
    requires 0 < Slot(inodes, blocks, n, k) < |blocks|
    ensures var b := Slot(inodes, blocks, n, k);
            var blocks' := blocks[b := Overlay(blocks[b], off, data)];
            && Owns(inodes, blocks', st)
            && BytesOver(inodes, blocks, inodes, blocks', n, k * BLOCK_SIZE + off, data)
            && (forall m, j :: 0 <= m < |inodes| && 0 <= j <= INDIRECT ==>
                  Slot(inodes, blocks', m, j) == Slot(inodes, blocks, m, j))
  {
    hide Slot;
    var b := Slot(inodes, blocks, n, k);
    var blocks' := blocks[b := Overlay(blocks[b], off, data)];
    SlotsFrame(inodes, blocks, b, Overlay(blocks[b], off, data));
    assert forall m, j :: 0 <= m < |inodes| && 0 <= j <= INDIRECT ==>
        Slot(inodes, blocks', m, j) == Slot(inodes, blocks, m, j);
    assert Owns(inodes, blocks', st);
    forall m, p | 0 <= m < |inodes| && 0 <= p < MAX_FILE_SIZE
      ensures ByteAt(inodes, blocks', m, p) ==
                if m == n && k * BLOCK_SIZE + off <= p < k * BLOCK_SIZE + off + |data|
                then data[p - (k * BLOCK_SIZE + off)] else ByteAt(inodes, blocks, m, p)
    {
      var j := p / BLOCK_SIZE;
      assert Slot(inodes, blocks', m, j) == Slot(inodes, blocks, m, j);
      if m == n && j == k {
        assert p == k * BLOCK_SIZE + p % BLOCK_SIZE;
      } else {
        assert Slot(inodes, blocks, m, j) != b;
        assert j != k ==> !(k * BLOCK_SIZE + off <= p < k * BLOCK_SIZE + off + |data|);
      }
    }
  }

  lemma OverThen(inodes: seq<Inode>, blocks: seq<Block>, mid: seq<Inode>, bmid: seq<Block>, inodes': seq<Inode>,
                 blocks': seq<Block>, n: nat, start: nat, a: seq<Byte>, b: seq<Byte>)
    requires Shaped(inodes) && Shaped(mid) && Shaped(inodes')
    requires BytesOver(inodes, blocks, mid, bmid, n, start, a)
             && BytesOver(mid, bmid, inodes', blocks', n, start + |a|, b)
    ensures BytesOver(inodes, blocks, inodes', blocks', n, start, a + b)
  {
    hide ByteAt;
    forall m, off | 0 <= m < |inodes| && 0 <= off < MAX_FILE_SIZE
      ensures ByteAt(inodes', blocks', m, off) ==
                if m == n && start <= off < start + |a + b| then (a + b)[off - start]
                      else ByteAt(inodes, blocks, m, off)
    {
      assert ByteAt(mid, bmid, m, off) ==
               if m == n && start <= off < start + |a| then a[off - start] else ByteAt(inodes, blocks, m, off);
    }
  }

  // ----- giving blocks back -----

  /** Emptying a slot leaves its block unowned. */
  lemma OwnsLess(inodes: seq<Inode>, blocks: seq<Block>, inodes': seq<Inode>, st: seq<Word>, n: nat, i: nat)
    requires Owns(inodes, blocks, st) && Shaped(inodes') && n < |inodes| && i <= INDIRECT
    requires SlotsBut(inodes, blocks, inodes', blocks, n, i, 0)
    ensures Owns(inodes', blocks, st)
    ensures Slot(inodes, blocks, n, i) != 0 ==>
              var b := Slot(inodes, blocks, n, i);
              0 < b < |blocks| && b !in st && Unowned(inodes', blocks, b)
  {
    hide Slot, NoDup;
  }

  /** The blocks that the indirect block `d` still lists from entry `from` on, and `d` itself, are on
      their way out: in no slot, not free, all different. */
  ghost predicate Pending(inodes: seq<Inode>, blocks: seq<Block>, st: seq<Word>, d: Word, from: nat)
    requires Shaped(inodes)
  {
    && 0 < d < |blocks| && d !in st && Unowned(inodes, blocks, d)
    && (forall j :: from <= j < NWORDS && WordAt(blocks[d], j) != 0 ==>
         Leaving(inodes, blocks, st, d, WordAt(blocks[d], j)))
    && (forall j, k :: from <= j < k < NWORDS && WordAt(blocks[d], j) != 0 ==>
         WordAt(blocks[d], j) != WordAt(blocks[d], k))
  }

  ghost predicate Leaving(inodes: seq<Inode>, blocks: seq<Block>, st: seq<Word>, d: Word, w: Word)
    requires Shaped(inodes)
  {
    0 < w < |blocks| && w !in st && w != d && Unowned(inodes, blocks, w)
  }

  /** A file lets go of its indirect block. */
  lemma Detach(inodes: seq<Inode>, blocks: seq<Block>, st: seq<Word>, n: nat)
    requires Owns(inodes, blocks, st) && n < |inodes| && IsFile(inodes[n]) && inodes[n].indirect != 0
    ensures var inodes' := inodes[n := inodes[n].(indirect := 0)];
            Shaped(inodes') && Owns(inodes', blocks, st) && Pending(inodes', blocks, st, inodes[n].indirect, 0)
  {
    hide WordAt, NoDup;
    var d, inodes' := inodes[n].indirect, inodes[n := inodes[n].(indirect := 0)];
    assert Slot(inodes, blocks, n, INDIRECT) == d;
    DetachSlots(inodes, blocks, n);
    DetachOwns(inodes, blocks, inodes', st, n);
    forall j | 0 <= j < NWORDS
      ensures WordAt(blocks[d], j) == Slot(inodes, blocks, n, NDIRECT + j)
    {
    }
    forall j | 0 <= j < NWORDS && WordAt(blocks[d], j) != 0
      ensures Leaving(inodes', blocks, st, d, WordAt(blocks[d], j))
    {
      DetachFrees(inodes, blocks, inodes', st, n, NDIRECT + j);
    }
    DetachFrees(inodes, blocks, inodes', st, n, INDIRECT);
    forall j, k | 0 <= j < k < NWORDS && WordAt(blocks[d], j) != 0
      ensures WordAt(blocks[d], j) != WordAt(blocks[d], k)
    {
      assert Slot(inodes, blocks, n, NDIRECT + j) != 0 && NDIRECT + j != NDIRECT + k;
    }
  }

  ghost predicate Detached(inodes: seq<Inode>, blocks: seq<Block>, inodes': seq<Inode>, n: nat)
    requires Shaped(inodes) && Shaped(inodes')
  {
    && |inodes'| == |inodes|
    && forall m, j :: 0 <= m < |inodes| && 0 <= j <= INDIRECT ==>
         Slot(inodes', blocks, m, j) == if m == n && j >= NDIRECT then 0 else Slot(inodes, blocks, m, j)
  }

  lemma DetachSlots(inodes: seq<Inode>, blocks: seq<Block>, n: nat)
    requires Shaped(inodes) && n < |inodes| && IsFile(inodes[n])
    ensures var inodes' := inodes[n := inodes[n].(indirect := 0)];
            Shaped(inodes') && Detached(inodes, blocks, inodes', n)
  {
    hide WordAt;
  }

  lemma DetachOwns(inodes: seq<Inode>, blocks: seq<Block>, inodes': seq<Inode>, st: seq<Word>, n: nat)
    requires Owns(inodes, blocks, st) && Shaped(inodes') && Detached(inodes, blocks, inodes', n)
    ensures Owns(inodes', blocks, st)
  {
    hide Slot, NoDup;
  }

  lemma DetachFrees(inodes: seq<Inode>, blocks: seq<Block>, inodes': seq<Inode>, st: seq<Word>, n: nat, i: nat)
    requires Owns(inodes, blocks, st) && Shaped(inodes') && n < |inodes| && Detached(inodes, blocks, inodes', n)
    requires NDIRECT <= i <= INDIRECT && Slot(inodes, blocks, n, i) != 0
    ensures var w := Slot(inodes, blocks, n, i);
            0 < w < |blocks| && w !in st && Unowned(inodes', blocks, w)
                && (i != INDIRECT ==> w != Slot(inodes, blocks, n, INDIRECT))
  {
    hide Slot, NoDup;
  }
}
