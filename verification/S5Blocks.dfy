/** Disk blocks of the S5 file system as bytes and as little-endian words, and the free block list
    kept in them (kernel/include/fs/s5fs/s5fs.h, kernel/fs/s5fs/s5fs_subr.c, tools/fsmaker/api.py).

    The superblock holds up to 29 free block numbers and, last, the number of a free block whose
    first 30 words are such a node again. */
module S5Blocks {
  import opened Bytes
  import opened Lists

  const BLOCK_SIZE: nat := 4096
  const NWORDS: nat := 1024
  const FNODE: nat := 30
  const NONE: nat := 0xffff_ffff

  type Block = b: seq<Byte> | |b| == BLOCK_SIZE witness seq(BLOCK_SIZE, _ => 0)

  function WordAt(b: Block, i: nat): Word
    requires i < NWORDS
  {
    Unpack(b[4 * i], b[4 * i + 1], b[4 * i + 2], b[4 * i + 3])
  }

  function SetWord(b: Block, i: nat, w: Word): Block
    requires i < NWORDS
  {
    b[..4 * i] + Pack(w) + b[4 * i + 4..]
  }

  /** Writing one word changes that word alone. */
  lemma WordAfterSet(b: Block, i: nat, w: Word, j: nat)
    requires i < NWORDS && j < NWORDS
    ensures WordAt(SetWord(b, i, w), j) == if j == i then w else WordAt(b, j)
  {
    var b', p := SetWord(b, i, w), Pack(w);
    if j == i {
      assert b'[4 * i] == p[0] && b'[4 * i + 1] == p[1] && b'[4 * i + 2] == p[2] && b'[4 * i + 3] == p[3];
      PackUnpack(w);
    } else {
      assert b'[4 * j] == b[4 * j] && b'[4 * j + 1] == b[4 * j + 1] && b'[4 * j + 2] == b[4 * j + 2]
             && b'[4 * j + 3] == b[4 * j + 3];
    }
  }

  /** The first words of a block overwritten, from the front. */
  function SetWords(b: Block, ws: seq<Word>): Block
    requires |ws| <= NWORDS
  {
    if ws == [] then b else SetWord(SetWords(b, ws[..|ws| - 1]), |ws| - 1, ws[|ws| - 1])
  }

  lemma {:induction false} WordAfterSets(b: Block, ws: seq<Word>, j: nat)
    requires |ws| <= NWORDS && j < NWORDS
    ensures WordAt(SetWords(b, ws), j) == if j < |ws| then ws[j] else WordAt(b, j)
  {
    hide SetWord, WordAt;
    if ws != [] {
      WordAfterSets(b, ws[..|ws| - 1], j);
      WordAfterSet(SetWords(b, ws[..|ws| - 1]), |ws| - 1, ws[|ws| - 1], j);
    }
  }

  function Words(b: Block, n: nat): (ws: seq<Word>)
    requires n <= NWORDS
    ensures |ws| == n
  {
    seq(n, i requires 0 <= i < n => WordAt(b, i))
  }

  const Zeros: Block := seq(BLOCK_SIZE, _ => 0)

  lemma ZeroWord(i: nat)
    requires i < NWORDS
    ensures WordAt(Zeros, i) == 0
  {
  }

  // ----- the free list -----

  /** The superblock's part: how many numbers it holds, and the 30 words they are in. */
  datatype Free = Free(nfree: nat, fb: seq<Word>)

  /** The free blocks below a node in block `last`, the next to be handed out at the end. */
  ghost predicate Chain(blocks: seq<Block>, last: Word, st: seq<Word>)
    decreases |st|
  {
    if last == NONE then st == []
    else
      && last < |blocks| && |st| >= FNODE
      && st[|st| - FNODE..] == Words(blocks[last], FNODE - 1) + [last]
      && Chain(blocks, WordAt(blocks[last], FNODE - 1), st[..|st| - FNODE])
  }

  /** The free list as a stack of block numbers, its top at the end. */
  ghost predicate Holds(f: Free, blocks: seq<Block>, st: seq<Word>) {
    && |f.fb| == FNODE && f.nfree < FNODE && |st| >= f.nfree
    && st[|st| - f.nfree..] == f.fb[..f.nfree]
    && Chain(blocks, f.fb[FNODE - 1], st[..|st| - f.nfree])
  }

  lemma {:induction false} ChainUnique(blocks: seq<Block>, last: Word, s: seq<Word>, t: seq<Word>)
    requires Chain(blocks, last, s) && Chain(blocks, last, t)
    ensures s == t
    decreases |s|
  {
    if last != NONE {
      ChainUnique(blocks, WordAt(blocks[last], FNODE - 1), s[..|s| - FNODE], t[..|t| - FNODE]);
      assert s == s[..|s| - FNODE] + s[|s| - FNODE..] && t == t[..|t| - FNODE] + t[|t| - FNODE..];
    }
  }

  /** A superblock and a disk hold at most one stack. */
  lemma HoldsUnique(f: Free, blocks: seq<Block>, s: seq<Word>, t: seq<Word>)
    requires Holds(f, blocks, s) && Holds(f, blocks, t)
    ensures s == t
  {
    hide Chain;
    ChainUnique(blocks, f.fb[FNODE - 1], s[..|s| - f.nfree], t[..|t| - f.nfree]);
    assert s == s[..|s| - f.nfree] + s[|s| - f.nfree..] && t == t[..|t| - f.nfree] + t[|t| - f.nfree..];
  }

  /** Blocks that are not on the list may change freely. */
  lemma {:induction false} ChainFrame(blocks: seq<Block>, last: Word, st: seq<Word>, b: nat, x: Block)
    requires Chain(blocks, last, st) && b < |blocks| && b !in st
    ensures Chain(blocks[b := x], last, st)
    decreases |st|
  {
    if last != NONE {
      assert last == st[|st| - FNODE..][FNODE - 1] == st[|st| - 1];
      ChainFrame(blocks, WordAt(blocks[last], FNODE - 1), st[..|st| - FNODE], b, x);
    }
  }

  lemma HoldsFrame(f: Free, blocks: seq<Block>, st: seq<Word>, b: nat, x: Block)
    requires Holds(f, blocks, st) && b < |blocks| && b !in st
    ensures Holds(f, blocks[b := x], st)
  {
    hide Chain;
    ChainFrame(blocks, f.fb[FNODE - 1], st[..|st| - f.nfree], b, x);
  }

  /** Freeing block `b`: into the superblock while there is room, else it becomes the next node. */
  function Pushed(f: Free, blocks: seq<Block>, b: Word): (Free, seq<Block>)
    requires |f.fb| == FNODE && f.nfree < FNODE && b < |blocks|
  {
    if f.nfree < FNODE - 1 then (Free(f.nfree + 1, f.fb[f.nfree := b]), blocks)
    else (Free(0, f.fb[FNODE - 1 := b]), blocks[b := SetWords(blocks[b], f.fb)])
  }

  lemma PushHolds(f: Free, blocks: seq<Block>, st: seq<Word>, b: Word)
    requires Holds(f, blocks, st) && b < |blocks| && b !in st && b != NONE
    ensures var (f', blocks') := Pushed(f, blocks, b);
            Holds(f', blocks', st + [b])
  {
    hide Chain;
    var base := st[..|st| - f.nfree];
    if f.nfree < FNODE - 1 {
      var f' := Free(f.nfree + 1, f.fb[f.nfree := b]);
      assert (st + [b])[..|st + [b]| - f'.nfree] == base;
      assert (st + [b])[|st + [b]| - f'.nfree..] == st[|st| - f.nfree..] + [b] == f'.fb[..f'.nfree];
    } else {
      PushNode(f, blocks, st, b);
    }
  }

  lemma PushNode(f: Free, blocks: seq<Block>, st: seq<Word>, b: Word)
    requires Holds(f, blocks, st) && b < |blocks| && b !in st && b != NONE && f.nfree == FNODE - 1
    ensures Holds(Free(0, f.fb[FNODE - 1 := b]), blocks[b := SetWords(blocks[b], f.fb)], st + [b])
  {
    hide SetWords, WordAt;
    var node := SetWords(blocks[b], f.fb);
    var base := st[..|st| - f.nfree];
    var all := st + [b];
    assert all[..|all| - FNODE] == base;
    assert all[|all| - FNODE..] == st[|st| - f.nfree..] + [b];
    ChainFrame(blocks, f.fb[FNODE - 1], base, b, node);
    forall j | 0 <= j < FNODE
      ensures WordAt(node, j) == f.fb[j]
    {
      WordAfterSets(blocks[b], f.fb, j);
    }
    assert Words(node, FNODE - 1) == f.fb[..FNODE - 1];
    assert all[..|all| - 0] == all;
  }

  /** Taking a block: the superblock's last number, or the node block itself, whose words move up. */
  function Popped(f: Free, blocks: seq<Block>): Option<(Word, Free)>
    requires |f.fb| == FNODE && f.nfree < FNODE && (f.fb[FNODE - 1] == NONE || f.fb[FNODE - 1] < |blocks|)
  {
    if f.nfree > 0 then Some((f.fb[f.nfree - 1], Free(f.nfree - 1, f.fb)))
    else if f.fb[FNODE - 1] == NONE then None
    else Some((f.fb[FNODE - 1], Free(FNODE - 1, Words(blocks[f.fb[FNODE - 1]], FNODE))))
  }

  /** Out of space exactly when the stack is empty, and else its top. */
  lemma PopHolds(f: Free, blocks: seq<Block>, st: seq<Word>)
    requires Holds(f, blocks, st)
    ensures f.fb[FNODE - 1] == NONE || f.fb[FNODE - 1] < |blocks|
    ensures Popped(f, blocks).None? <==> st == []
    ensures st != [] ==>
              var (b, f') := Popped(f, blocks).value;
              b == st[|st| - 1] && Holds(f', blocks, st[..|st| - 1])
  {
    hide WordAt;
    if f.nfree > 0 {
      var rest := st[..|st| - 1];
      assert st[|st| - 1] == st[|st| - f.nfree..][f.nfree - 1];
      assert rest[..|rest| - (f.nfree - 1)] == st[..|st| - f.nfree];
      assert rest[|rest| - (f.nfree - 1)..] == st[|st| - f.nfree..][..f.nfree - 1];
    } else {
      assert st[..|st| - 0] == st;
      var last := f.fb[FNODE - 1];
      if last != NONE {
        var rest := st[..|st| - 1];
        assert st[|st| - 1] == st[|st| - FNODE..][FNODE - 1] == last;
        assert rest[..|rest| - (FNODE - 1)] == st[..|st| - FNODE];
        assert rest[|rest| - (FNODE - 1)..] == st[|st| - FNODE..][..FNODE - 1];
      }
    }
  }

  /** Taking a block right after freeing one gives that block, and the superblock's live words and
      its node are again what they were. */
  lemma PushThenPop(f: Free, blocks: seq<Block>, b: Word)
    requires |f.fb| == FNODE && f.nfree < FNODE && b < |blocks| && b != NONE
    requires f.fb[FNODE - 1] == NONE || f.fb[FNODE - 1] < |blocks|
    ensures var (f', blocks') := Pushed(f, blocks, b);
            && Popped(f', blocks').Some? && Popped(f', blocks').value.0 == b
            && var f'' := Popped(f', blocks').value.1;
               f''.nfree == f.nfree && |f''.fb| == FNODE && f''.fb[..f.nfree] == f.fb[..f.nfree]
                   && f''.fb[FNODE - 1] == f.fb[FNODE - 1]
  {
    hide SetWords, WordAt;
    var (f', blocks') := Pushed(f, blocks, b);
    if f.nfree == FNODE - 1 {
      forall j | 0 <= j < FNODE
        ensures WordAt(blocks'[b], j) == f.fb[j]
      {
        WordAfterSets(blocks[b], f.fb, j);
      }
      assert Words(blocks'[b], FNODE) == f.fb;
    }
  }
}
