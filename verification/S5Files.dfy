/** Files of the S5 file system as the disk tool uses them: where their bytes are on the disk, writing and
    reading back, and copying a file out (tools/fsmaker/api.py, tools/fsmaker/sh.py). */
module S5Files {
  import opened Arithmetic
  import opened Bytes
  import opened Lists
  import opened S5Blocks
  import opened S5Ownership
  import opened S5Disk
  import opened S5Truncate

  /** The byte at a place in a block, zero where there is no block. */
  function InBlock(blocks: seq<Block>, b: int, at: nat): Byte
    requires at < BLOCK_SIZE
  {
    if 0 < b < |blocks| then blocks[b][at] else 0
  }

  /** Where the byte at an offset is: in the direct block of its number, or in the block whose number is in
      the indirect block, a little-endian word for each; where there is no block there is a zero. */
  lemma FileFormat(inodes: seq<Inode>, blocks: seq<Block>, st: seq<Word>, n: nat, off: nat)
    requires Owns(inodes, blocks, st) && n < |inodes| && IsFile(inodes[n]) && off < 1052 * 4096
    ensures off < 28 * 4096 ==>
              ByteAt(inodes, blocks, n, off) == InBlock(blocks, inodes[n].direct[off / 4096], off % 4096)
    ensures off >= 28 * 4096 && inodes[n].indirect == 0 ==> ByteAt(inodes, blocks, n, off) == 0
    ensures off >= 28 * 4096 && inodes[n].indirect != 0 ==>
              && inodes[n].indirect < |blocks|
              && var i, at := blocks[inodes[n].indirect], 4 * (off / 4096 - 28);
                 var low, high := i[at] as int + 0x100 * i[at + 1] as int, i[at + 2] as int + 0x100 * i[at + 3] as int;
                 ByteAt(inodes, blocks, n, off) == InBlock(blocks, low + 0x1_0000 * high, off % 4096)
  {
    NoIndirect(inodes, blocks, n);
    OwnedInRange(inodes, blocks, st, n, INDIRECT);
  }

  /** After a write at the end of a file a read from there on of any greater length gives just what was
      written. */
  method AppendThenRead(disk: Simdisk, n: nat, data: seq<Byte>, len: nat) returns (r: Written, back: Option<seq<Byte>>)
    requires disk.Valid() && n < |disk.inodes| && |data| <= len
    modifies disk
    ensures r == Ok ==> back == Some(data)
  {
    hide Simdisk.Valid, BytesOver, Lacking, ByteAt;
    var end: nat := disk.inodes[n].size;
    ghost var inodes, blocks := disk.inodes, disk.blocks;
    ghost var done;
    r, done := disk.Write(n, end, data);
    back := Some([]);
    if r == Ok {
      back := disk.Read(n, end, Some(len));
      assert data[..done] == data;
      assert |back.value| == |data|;
      forall i | 0 <= i < |data|
        ensures back.value[i] == data[i]
      {
        OverAt(inodes, blocks, disk.inodes, disk.blocks, n, end, data, end + i);
      }
      assert back.value == data;
    }
  }

  lemma OverAt(inodes: seq<Inode>, blocks: seq<Block>, inodes': seq<Inode>, blocks': seq<Block>,
               n: nat, start: nat, data: seq<Byte>, off: nat)
    requires Shaped(inodes) && Shaped(inodes') && BytesOver(inodes, blocks, inodes', blocks', n, start, data)
    requires n < |inodes| && start <= off < start + |data| && off < MAX_FILE_SIZE
    ensures |inodes'| == |inodes| && ByteAt(inodes', blocks', n, off) == data[off - start]
  {
    hide ByteAt;
  }

  /** The loop of the tool's command that copies a file out, 20000 bytes at a time until none come: it
      ends, and the copy is the file. */
  method CopyOut(disk: Simdisk, n: nat) returns (r: Option<seq<Byte>>)
    requires disk.Valid() && n < |disk.inodes|
    ensures r.None? <==> !IsFile(disk.inodes[n])
    ensures r.Some? ==> Shaped(disk.inodes) && |r.value| == Min(disk.inodes[n].size, MAX_FILE_SIZE)
    ensures r.Some? ==> forall i :: 0 <= i < |r.value| ==> r.value[i] == ByteAt(disk.inodes, disk.blocks, n, i)
  {
    hide Simdisk.Valid, ByteAt;
    var dest, loc := [], 0;
    var data := disk.Read(n, loc, Some(20000));
    if data.None? {
      return None;
    }
    while data.value != []
      invariant data.Some? && loc == |dest| <= Min(disk.inodes[n].size, MAX_FILE_SIZE)
      invariant data.value == [] ==> loc >= disk.inodes[n].size || loc >= MAX_FILE_SIZE
      invariant data.value != [] ==> loc + |data.value| <= disk.inodes[n].size && loc + |data.value| <= MAX_FILE_SIZE
      invariant Shaped(disk.inodes)
      invariant forall i :: 0 <= i < |dest| ==> dest[i] == ByteAt(disk.inodes, disk.blocks, n, i)
      invariant forall i :: 0 <= i < |data.value| ==>
                  loc + i < MAX_FILE_SIZE && data.value[i] == ByteAt(disk.inodes, disk.blocks, n, loc + i)
      decreases disk.inodes[n].size - loc
    {
      dest := dest + data.value;
      loc := loc + |data.value|;
      data := disk.Read(n, loc, Some(20000));
    }
    return Some(dest);
  }

  ghost predicate Holding(inodes: seq<Inode>, blocks: seq<Block>, n: nat, source: seq<Byte>)
    requires Shaped(inodes)
  {
    && n < |inodes| && IsFile(inodes[n]) && inodes[n].size == |source| <= MAX_FILE_SIZE
    && forall i :: 0 <= i < |source| ==> ByteAt(inodes, blocks, n, i) == source[i]
  }

  lemma HoldingNone(inodes: seq<Inode>, blocks: seq<Block>, n: nat)
    requires Shaped(inodes) && n < |inodes| && IsFile(inodes[n]) && inodes[n].size == 0
    ensures forall s: seq<Byte> :: s == [] ==> Holding(inodes, blocks, n, s)
  {
  }

  lemma HoldingFacts(inodes: seq<Inode>, blocks: seq<Block>, n: nat, source: seq<Byte>)
    requires Shaped(inodes) && Holding(inodes, blocks, n, source)
    ensures n < |inodes| && IsFile(inodes[n]) && inodes[n].size == |source| <= MAX_FILE_SIZE
  {
  }

  lemma HoldingMore(inodes: seq<Inode>, blocks: seq<Block>, inodes': seq<Inode>, blocks': seq<Block>, n: nat,
                    source: seq<Byte>, data: seq<Byte>)
    requires Shaped(inodes) && Shaped(inodes') && Holding(inodes, blocks, n, source)
    requires BytesOver(inodes, blocks, inodes', blocks', n, |source|, data) && |source + data| <= MAX_FILE_SIZE
    requires Resized(inodes, inodes', n, |source + data|)
    ensures Holding(inodes', blocks', n, source + data) && Others(inodes, blocks, inodes', blocks', n)
  {
    hide ByteAt;
    forall i | 0 <= i < |source + data|
      ensures ByteAt(inodes', blocks', n, i) == (source + data)[i]
    {
      if i < |source| { assert ByteAt(inodes, blocks, n, i) == source[i]; }
    }
  }

  /** The tool's command that copies a file in, 20000 bytes at a time after it has emptied the file there.
      `None` when it cannot be emptied, which is when it is as large as a file can be. */
  method CopyIn(disk: Simdisk, n: nat, source: seq<Byte>) returns (r: Option<Written>)
    requires disk.Valid() && n < |disk.inodes| && IsFile(disk.inodes[n])
    modifies disk
    ensures disk.Valid() && Shaped(disk.inodes) && Shaped(old(disk.inodes))
    ensures r.None? <==> old(disk.inodes)[n].size / BLOCK_SIZE >= INDIRECT && old(disk.inodes)[n].indirect != 0
    ensures r.None? ==> unchanged(disk)
    ensures r == Some(Ok) ==> Holding(disk.inodes, disk.blocks, n, source)
    ensures r == Some(Ok) ==> Others(old(disk.inodes), old(disk.blocks), disk.inodes, disk.blocks, n)
    ensures r != Some(BadType) && (r == Some(TooLarge) ==> |source| > MAX_FILE_SIZE)
  {
    hide Simdisk.Valid, ByteAt, BytesOver, Lacking, Others, Holding, Cut, Gone, Freed;
    ghost var inodes0, blocks0 := disk.inodes, disk.blocks;
    var emptied := Truncate(disk, n, 0);
    if emptied != Done {
      return None;
    }
    CutOthers(inodes0, blocks0, disk.inodes, disk.blocks, n,
              Gone(inodes0, blocks0, n, 0, inodes0[n].size / BLOCK_SIZE));
    var loc := 0;
    HoldingNone(disk.inodes, disk.blocks, n);
    while loc < |source|
      invariant loc <= |source| && disk.Valid() && Shaped(disk.inodes)
      invariant Holding(disk.inodes, disk.blocks, n, source[..loc])
      invariant Others(inodes0, blocks0, disk.inodes, disk.blocks, n)
    {
      var next := Min(loc + 20000, |source|);
      var data := source[loc..next];
      ghost var mid, bmid := disk.inodes, disk.blocks;
      ghost var done;
      HoldingFacts(mid, bmid, n, source[..loc]);
      assert source[..loc] + data == source[..next];
      var w;
      w, done := disk.Write(n, loc, data);
      if w != Ok {
        return Some(w);
      }
      assert data[..done] == data;
      HoldingMore(mid, bmid, disk.inodes, disk.blocks, n, source[..loc], data);
      OthersThen(inodes0, blocks0, mid, bmid, disk.inodes, disk.blocks, n);
      loc := next;
    }
    assert source[..loc] == source;
    return Some(Ok);
  }

  /** What has been copied in is copied out again. */
  method CopyInOut(disk: Simdisk, n: nat, source: seq<Byte>) returns (r: Option<Written>, back: Option<seq<Byte>>)
    requires disk.Valid() && n < |disk.inodes| && IsFile(disk.inodes[n])
    modifies disk
    ensures r == Some(Ok) ==> back == Some(source)
  {
    hide Simdisk.Valid, ByteAt, Others;
    back := None;
    r := CopyIn(disk, n, source);
    if r == Some(Ok) {
      back := CopyOut(disk, n);
      assert back.value == source;
    }
  }
}
