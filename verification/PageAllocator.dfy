/** One page group of the buddy allocator of kernel/mm/page.c, with one free list and one buddy
    bitmap per order.

    A valid group covers a whole number of largest blocks; `PageGroup.Create` treats ranges of any
    length.  Addresses, list order and the bitmaps are as in the source; the ghost fields name the
    blocks behind the addresses and the blocks currently handed out. */
module PageAllocator {
  import opened Arithmetic
  import opened BuddyBlocks
  import opened BuddyLists
  import opened Lists
  import opened PageSizes

  // ----- list operations on block numbers -----

  ghost function Push(idx: seq<seq<nat>>, k: nat, i: nat): (idx': seq<seq<nat>>)
    requires k < |idx|
    ensures |idx'| == |idx| && idx'[k] == [i] + idx[k]
    ensures forall j: nat, r: nat :: Listed(idx', j, r) <==> Listed(idx, j, r) || (j == k && r == i)
    ensures forall j :: 0 <= j < |idx| && j != k ==> idx'[j] == idx[j]
  {
    idx[k := [i] + idx[k]]
  }

  ghost function Drop(idx: seq<seq<nat>>, k: nat, i: nat): (idx': seq<seq<nat>>)
    requires k < |idx| && NoDup(idx[k]) && i in idx[k]
    ensures |idx'| == |idx| && idx'[k] == Without(idx[k], i) && NoDup(idx'[k])
    ensures |idx'[k]| == |idx[k]| - 1
    ensures forall j: nat, r: nat :: Listed(idx', j, r) <==> Listed(idx, j, r) && !(j == k && r == i)
    ensures forall j :: 0 <= j < |idx| && j != k ==> idx'[j] == idx[j]
  {
    WithoutMembers(idx[k], i);
    idx[k := Without(idx[k], i)]
  }

  lemma AddrsCons(base: nat, k: nat, i: nat, s: seq<nat>)
    ensures Addrs(base, k, [i] + s) == [AddrOf(base, k, i)] + Addrs(base, k, s)
  {
  }

  lemma AddrsTail(base: nat, k: nat, s: seq<nat>)
    requires s != []
    ensures Addrs(base, k, s)[1..] == Addrs(base, k, s[1..])
    ensures Addrs(base, k, s)[0] == AddrOf(base, k, s[0]) && Without(s, s[0]) == s[1..]
  {
  }

  /** Pages on the lists: the sum of 2^k over all listed blocks of order `k`. */
  function Pages(free: seq<seq<nat>>): nat {
    if free == [] then 0
    else Pages(free[..|free| - 1]) + |free[|free| - 1]| * Pow2(|free| - 1)
  }

  lemma {:induction false} PagesUpdate(free: seq<seq<nat>>, k: nat, s: seq<nat>)
    requires k < |free|
    ensures Pages(free[k := s]) == Pages(free) + |s| * Pow2(k) - |free[k]| * Pow2(k)
  {
    var n := |free| - 1;
    if k == n {
      assert free[k := s][..n] == free[..n];
    } else {
      PagesUpdate(free[..n], k, s);
      assert free[k := s][..n] == free[..n][k := s];
    }
  }

  /** Every outstanding block lies in the group and no two of them share a page. */
  ghost predicate Outstanding(tops: nat, out: set<Block>) {
    && (forall b :: b in out ==> b.order <= TOP && b.index < Count(tops, b.order))
    && (forall a, b :: a in out && b in out && a != b ==> !Overlap(a, b))
  }

  lemma OutstandingAdd(tops: nat, out: set<Block>, b: Block)
    requires Outstanding(tops, out) && b.order <= TOP && b.index < Count(tops, b.order) && Free(out, b)
    ensures Outstanding(tops, out + {b}) && b !in out
  {
    forall a | a in out
      ensures !Overlap(a, b) && !Overlap(b, a)
    {
      OverlapSymmetric(a, b);
    }
    OverlapSameOrder(b.order, b.index, b.index);
  }

  lemma OutstandingRemove(tops: nat, out: set<Block>, b: Block)
    requires Outstanding(tops, out) && b in out
    ensures Outstanding(tops, out - {b}) && Free(out - {b}, b) && (out - {b}) + {b} == out
  {
  }

  /** The lists show distinct blocks, the bitmaps have a bit for every pair, and every bit is the
      exclusive or of its pair. */
  ghost predicate Shape(base: nat, tops: nat, free: seq<seq<nat>>, bits: seq<seq<bool>>, idx: seq<seq<nat>>) {
    && |free| == |bits| == |idx| == PAGE_NSIZES
    && (forall k :: 0 <= k < PAGE_NSIZES ==> free[k] == Addrs(base, k, idx[k]) && NoDup(idx[k]))
    && (forall k :: 0 < k < PAGE_NSIZES ==> Count(tops, k) <= |bits[k]|)
    && BitsAgree(idx, bits)
  }

  /** In the middle of a split or a join, block (k, i) is free and listed on its own. */
  ghost predicate Pending(base: nat, tops: nat, free: seq<seq<nat>>, bits: seq<seq<bool>>, idx: seq<seq<nat>>,
                          out: set<Block>, k: nat, i: nat) {
    && Shape(base, tops, free, bits, idx) && CanonicalPlus(idx, tops, out, k, i)
    && k <= TOP && i < Count(tops, k) && Free(out, Block(k, i))
  }

  // ----- what each list operation does to lists, bitmaps and block numbers -----

  /** Unlinking the head of a list and flipping its pair bit. */
  lemma PopHead(base: nat, tops: nat, free: seq<seq<nat>>, bits: seq<seq<bool>>, idx: seq<seq<nat>>, k: nat)
    requires Shape(base, tops, free, bits, idx) && k <= TOP && idx[k] != [] && idx[k][0] < Count(tops, k)
    ensures free[k] != [] && free[k][0] == AddrOf(base, k, idx[k][0])
    ensures k < TOP ==> idx[k][0] / 2 < |bits[k + 1]|
    ensures var bits' := if k < TOP then Flip(bits, k + 1, idx[k][0] / 2) else bits;
            Shape(base, tops, free[k := free[k][1..]], bits', Drop(idx, k, idx[k][0]))
  {
    hide BitsAgree, Count, AddrOf, Bit;
    var i, idx' := idx[k][0], Drop(idx, k, idx[k][0]);
    AddrsTail(base, k, idx[k]);
    if k < TOP {
      BuddyInRange(tops, k, i);
      FlipOne(idx, idx', bits, k, i);
    } else {
      TopNeedsNoBit(idx, idx', bits, i);
    }
  }

  /** Linking a block at the head of its list and flipping its pair bit. */
  lemma PushHead(base: nat, tops: nat, free: seq<seq<nat>>, bits: seq<seq<bool>>, idx: seq<seq<nat>>, k: nat, i: nat)
    requires Shape(base, tops, free, bits, idx) && k <= TOP && i < Count(tops, k) && !Listed(idx, k, i)
    ensures k < TOP ==> i / 2 < |bits[k + 1]|
    ensures var bits' := if k < TOP then Flip(bits, k + 1, i / 2) else bits;
            Shape(base, tops, free[k := [AddrOf(base, k, i)] + free[k]], bits', Push(idx, k, i))
  {
    hide BitsAgree, Count, AddrOf, Bit;
    var idx' := Push(idx, k, i);
    AddrsCons(base, k, i, idx[k]);
    assert NoDup(idx'[k]);
    if k < TOP {
      BuddyInRange(tops, k, i);
      FlipOne(idx, idx', bits, k, i);
    } else {
      TopNeedsNoBit(idx, idx', bits, i);
    }
  }

  /** Linking both halves of a block, neither of which was listed: the pair bit stays. */
  lemma PushPair(base: nat, tops: nat, free: seq<seq<nat>>, bits: seq<seq<bool>>, idx: seq<seq<nat>>, k: nat, p: nat)
    requires Shape(base, tops, free, bits, idx) && k < TOP
    requires !Listed(idx, k, 2 * p) && !Listed(idx, k, 2 * p + 1)
    ensures var idx' := Push(Push(idx, k, 2 * p), k, 2 * p + 1);
            var a := AddrOf(base, k + 1, p);
            && Shape(base, tops, free[k := [a + Size(k), a] + free[k]], bits, idx')
            && idx'[k] == [2 * p + 1, 2 * p] + idx[k]
  {
    hide BitsAgree, Count, AddrOf, Bit, Size;
    var idx' := Push(Push(idx, k, 2 * p), k, 2 * p + 1);
    AddrsCons(base, k, 2 * p, idx[k]);
    AddrsCons(base, k, 2 * p + 1, [2 * p] + idx[k]);
    AddrHalves(base, k, p);
    assert [AddrOf(base, k, 2 * p + 1)] + ([AddrOf(base, k, 2 * p)] + free[k])
        == [AddrOf(base, k, 2 * p + 1), AddrOf(base, k, 2 * p)] + free[k];
    assert idx'[k] == [2 * p + 1, 2 * p] + idx[k];
    assert NoDup(idx'[k]);
    PairTogether(idx, idx', bits, k, p);
  }

  /** Unlinking both buddies of a pair: the pair bit stays. */
  lemma DropPair(base: nat, tops: nat, free: seq<seq<nat>>, bits: seq<seq<bool>>, idx: seq<seq<nat>>, k: nat, i: nat)
    requires Shape(base, tops, free, bits, idx) && k < TOP && i < Count(tops, k)
    requires Listed(idx, k, i) && Listed(idx, k, Buddy(i))
    ensures Buddy(i) != i && Listed(Drop(idx, k, i), k, Buddy(i))
    ensures var idx' := Drop(Drop(idx, k, i), k, Buddy(i));
            var list := Without(Without(free[k], AddrOf(base, k, i)), AddrOf(base, k, Buddy(i)));
            && Shape(base, tops, free[k := list], bits, idx')
            && |list| == |free[k]| - 2
  {
    hide BitsAgree, Count, AddrOf, Bit, Buddy;
    BuddyInRange(tops, k, i);
    var b := Buddy(i);
    var idx' := Drop(Drop(idx, k, i), k, b);
    WithoutAddrs(base, k, idx[k], i);
    WithoutAddrs(base, k, Without(idx[k], i), b);
    PairTogether(idx, idx', bits, k, i / 2);
  }

  /** The size of `struct pagegroup`: eight list heads, eight map pointers, two addresses, a link. */
  const GROUP_RECORD: nat := 8 * 8 + 8 * 4 + 2 * 4 + 8

  /** Bits of one order's bitmap: one for every pair, rounded up to whole bytes. */
  function BitmapBits(npages: nat, order: nat): nat {
    ((Up(npages, order) + 7) / 8) * 8
  }

  lemma BitmapSize(npages: nat, order: nat)
    requires 0 < npages
    ensures Up(npages, order) <= BitmapBits(npages, order) && BitmapBits(npages, order) / 8 <= npages
  {
    UpSmaller(npages, order);
  }

  ghost predicate AllClear(bits: seq<bool>) {
    forall t :: 0 <= t < |bits| ==> !bits[t]
  }

  /** The bytes that the bitmaps take. */
  ghost function MapBytes(maps: seq<seq<bool>>): nat {
    if maps == [] then 0 else MapBytes(maps[..|maps| - 1]) + |maps[|maps| - 1]| / 8
  }

  /** Cleared bitmaps for the orders so far. */
  ghost predicate MapsFor(npages: nat, maps: seq<seq<bool>>) {
    && |maps| >= 1 && maps[0] == []
    && (forall k :: 0 <= k < |maps| ==> AllClear(maps[k]))
    && (forall k :: 0 < k < |maps| ==> Fits(npages, k, |maps[k]|))
  }

  /** Enough bits for the pairs, in no more bytes than there are pages. */
  ghost predicate Fits(npages: nat, order: nat, bits: nat) {
    Up(npages, order) <= bits && bits / 8 <= npages
  }

  lemma MapsStart(npages: nat)
    ensures MapsFor(npages, [[]]) && MapBytes([[]]) == 0
  {
    var maps: seq<seq<bool>> := [[]];
    assert maps[..0] == [];
  }

  lemma MapsStep(npages: nat, maps: seq<seq<bool>>, bits: seq<bool>)
    requires MapsFor(npages, maps) && AllClear(bits) && 0 < npages && |bits| == BitmapBits(npages, |maps|)
    ensures MapsFor(npages, maps + [bits]) && MapBytes(maps + [bits]) == MapBytes(maps) + |bits| / 8
  {
    hide Fits, BitmapBits, AllClear, MapBytes;
    assert Fits(npages, |maps|, |bits|) by { BitmapFits(npages, |maps|); }
    MoreMaps(maps, bits);
  }

  lemma BitmapFits(npages: nat, order: nat)
    requires 0 < npages
    ensures Fits(npages, order, BitmapBits(npages, order))
  {
    hide Up, BitmapBits;
    BitmapSize(npages, order);
  }

  lemma MoreMaps(maps: seq<seq<bool>>, bits: seq<bool>)
    ensures MapBytes(maps + [bits]) == MapBytes(maps) + |bits| / 8
  {
    assert (maps + [bits])[..|maps|] == maps;
  }

  lemma {:induction false} MapsBound(npages: nat, maps: seq<seq<bool>>)
    requires |maps| >= 1 && maps[0] == [] && forall k :: 0 < k < |maps| ==> |maps[k]| / 8 <= npages
    ensures MapBytes(maps) <= (|maps| - 1) * npages
  {
    if |maps| == 1 {
      assert maps[..0] == [];
    } else {
      MapsBound(npages, maps[..|maps| - 1]);
      assert (|maps| - 2) * npages + npages == (|maps| - 1) * npages;
    }
  }

  lemma MapsEnd(npages: nat, maps: seq<seq<bool>>)
    requires MapsFor(npages, maps) && |maps| == PAGE_NSIZES
    ensures MapBytes(maps) <= 7 * npages && forall k: nat, t: nat :: !Bit(maps, k, t)
    ensures forall k :: 0 < k < PAGE_NSIZES ==> Up(npages, k) <= |maps[k]|
  {
    hide Up, MapBytes;
    forall k | 0 < k < |maps|
      ensures Up(npages, k) <= |maps[k]| && |maps[k]| / 8 <= npages
    {
      assert Fits(npages, k, |maps[k]|);
    }
    MapsBound(npages, maps);
  }

  /** Cuts a cleared bitmap for every order but the lowest off the end of the range. */
  method Bitmaps(npages: nat, end: nat) returns (cut: nat, maps: seq<seq<bool>>)
    requires 7 * npages <= end && 0 < npages
    ensures cut <= end && end - cut == MapBytes(maps) <= 7 * npages
    ensures |maps| == PAGE_NSIZES && forall k: nat, t: nat :: !Bit(maps, k, t)
    ensures forall k :: 0 < k < PAGE_NSIZES ==> Up(npages, k) <= |maps[k]|
  {
    hide Up, BitmapBits, MapBytes, MapsFor, Bit;
    var at: int := end;
    maps := [[]];
    MapsStart(npages);
    var order := 1;
    while order < PAGE_NSIZES
      invariant 1 <= order <= PAGE_NSIZES && |maps| == order
      invariant MapsFor(npages, maps) && end - at == MapBytes(maps)
    {
      var count := BitmapBits(npages, order);
      at := at - count / 8;
      var zeros := seq(count, _ => false);
      assert AllClear(zeros);
      MapsStep(npages, maps, zeros);
      maps := maps + [zeros];
      order := order + 1;
    }
    MapsEnd(npages, maps);
    cut := at;
  }

  lemma {:induction false} UpSmaller(i: nat, d: nat)
    ensures Up(i, d) <= i
  {
    if d > 0 { UpSmaller(i / 2, d - 1); }
  }

  lemma {:induction false} UpMono(i: nat, j: nat, d: nat)
    requires i <= j
    ensures Up(i, d) <= Up(j, d)
  {
    if d > 0 { UpMono(i / 2, j / 2, d - 1); }
  }

  /** The block that `_pagegroup_create` puts on list `k` for a group of `n` pages. */
  function TailBlock(n: nat, k: nat): seq<nat> {
    if Up(n, k) % 2 == 1 then [Up(n, k) - 1] else []
  }

  lemma {:induction false} UpIsShift(n: nat, k: nat)
    ensures 0 < Pow2(k) && Up(n, k) == n / Pow2(k)
  {
    Pow2Positive(k);
    if k > 0 {
      UpIsShift(n / 2, k - 1);
      DivDiv(n, Pow2(k - 1));
    }
  }

  lemma DivDiv(n: nat, p: nat)
    requires 0 < p
    ensures (n / 2) / p == n / (2 * p)
  {
    var q := n / (2 * p);
    var r := n % (2 * p);
    assert n == q * (2 * p) + r;
    assert n / 2 == q * p + r / 2;
    assert 0 <= r / 2 < p;
    assert (q + 1) * p == q * p + p;
    QuotientUnique(n / 2, p, q);
  }

  /** The tail loop of `_pagegroup_create`: what does not fill a block of the next order is cut off
      the end and listed. */
  method Tails(start: nat, n: nat) returns (rest: nat, free: seq<seq<nat>>, ghost idx: seq<seq<nat>>)
    ensures rest == AddrOf(start, TOP, Up(n, TOP))
    ensures |free| == |idx| == TOP
    ensures forall k :: 0 <= k < TOP ==> idx[k] == TailBlock(n, k) && free[k] == Addrs(start, k, idx[k])
  {
    hide AddrOf, Pow2, Size;
    rest, free, idx := start + n * PAGE_SIZE, [], [];
    PageAddr(start, n);
    var order := 0;
    while order < TOP
      invariant 0 <= order <= TOP && |free| == |idx| == order
      invariant rest == AddrOf(start, order, Up(n, order))
      invariant forall k :: 0 <= k < order ==> idx[k] == TailBlock(n, k) && free[k] == Addrs(start, k, idx[k])
    {
      UpStep(n, order);
      BuddyAddr(start, order, Up(n, order));
      UpIsShift(n, order);
      if (n / Pow2(order)) % 2 == 1 {
        rest := rest - Size(order);
        free := free + [[rest]];
      } else {
        free := free + [[]];
      }
      idx := idx + [TailBlock(n, order)];
      assert free[order] == Addrs(start, order, idx[order]);
      order := order + 1;
    }
  }

  function AlignDown(x: nat): nat { x - x % PAGE_SIZE }

  /** The range left after the group record and the bitmaps is whole pages and not negative. */
  lemma RangeArith(start: nat, end: nat, cut: nat)
    requires start % PAGE_SIZE == 0 && end % PAGE_SIZE == 0 && start < end
    requires cut <= end - GROUP_RECORD && end - GROUP_RECORD - cut <= 7 * ((end - start) / PAGE_SIZE)
    ensures start <= AlignDown(cut) < end && AlignDown(cut) % PAGE_SIZE == 0
    ensures var n := (AlignDown(cut) - start) / PAGE_SIZE;
            AlignDown(cut) == start + n * PAGE_SIZE && n <= (end - start) / PAGE_SIZE
  {
    var s, e, c := start / PAGE_SIZE, end / PAGE_SIZE, cut / PAGE_SIZE;
    assert start == s * PAGE_SIZE && end == e * PAGE_SIZE && AlignDown(cut) == c * PAGE_SIZE;
    assert (end - start) / PAGE_SIZE == e - s && e - s >= 1;
    assert start <= cut < end;
    assert s <= c < e && (AlignDown(cut) - start) / PAGE_SIZE == c - s;
  }

  lemma PageAddr(start: nat, n: nat)
    ensures AddrOf(start, 0, n) == start + n * PAGE_SIZE && Up(n, 0) == n
  {
  }

  /** The loop that lists the largest blocks, lowest address first, each at the head. */
  method TopBlocks(start: nat, end: nat, ghost tops: nat) returns (list: seq<nat>, ghost nums: seq<nat>)
    requires end == AddrOf(start, TOP, tops)
    ensures list == Addrs(start, TOP, nums) && NoDup(nums) && |nums| == tops
    ensures forall i: nat :: i in nums <==> i < tops
  {
    list, nums := [], [];
    var current := start;
    ghost var c := 0;
    while current < end
      invariant c <= tops && current == AddrOf(start, TOP, c)
      invariant list == Addrs(start, TOP, nums) && NoDup(nums) && |nums| == c
      invariant forall i: nat :: i in nums <==> i < c
      decreases tops - c
    {
      assert c < tops;
      AddrsCons(start, TOP, c, nums);
      NoDupCons(nums, c);
      list := [current] + list;
      nums := [c] + nums;
      current := current + Size(TOP);
      c := c + 1;
    }
    if c < tops {
      Pow2Positive(TOP);
      MulLess(c, tops, Size(TOP));
    }
  }

  /** The new group agrees with its cleared bitmaps exactly when there is no tail, and is then the
      canonical group with nothing outstanding. */
  lemma TailsDecide(idx: seq<seq<nat>>, bits: seq<seq<bool>>, n: nat)
    requires |idx| == PAGE_NSIZES && forall k :: 0 <= k < TOP ==> idx[k] == TailBlock(n, k)
    requires forall i: nat :: Listed(idx, TOP, i) <==> i < Up(n, TOP)
    requires forall k: nat, t: nat :: !Bit(bits, k, t)
    ensures BitsAgree(idx, bits) <==> n % Pow2(TOP) == 0
    ensures n % Pow2(TOP) == 0 ==> Canonical(idx, Up(n, TOP), {}) && forall k :: 0 <= k < TOP ==> idx[k] == []
  {
    if forall k :: 0 <= k < TOP ==> Up(n, k) % 2 == 0 {
      NoTailMeansWhole(n, TOP);
      WholeCanonical(idx, Up(n, TOP));
      assert forall k: nat, i: nat :: k < TOP ==> !Listed(idx, k, i);
    } else {
      var k :| 0 <= k < TOP && Up(n, k) % 2 == 1;
      TailMeansRemainder(n, k);
      var t := Up(n, k) / 2;
      assert Listed(idx, k, 2 * t) && !Listed(idx, k, 2 * t + 1) && !Bit(bits, k + 1, t);
    }
  }

  lemma WholeGroup(base: nat, n: nat, all: nat, free: seq<seq<nat>>, bits: seq<seq<bool>>, idx: seq<seq<nat>>)
    requires |free| == |idx| == |bits| == PAGE_NSIZES && n <= all && 0 < Pow2(TOP) && n % Pow2(TOP) == 0
    requires forall k :: 0 <= k < PAGE_NSIZES ==> free[k] == Addrs(base, k, idx[k]) && NoDup(idx[k])
    requires forall k :: 0 <= k < TOP ==> idx[k] == []
    requires forall k :: 0 < k < PAGE_NSIZES ==> Up(all, k) <= |bits[k]|
    requires BitsAgree(idx, bits) && |idx[TOP]| == Up(n, TOP)
    ensures Shape(base, Up(n, TOP), free, bits, idx)
    ensures base + n * PAGE_SIZE == AddrOf(base, TOP, Up(n, TOP)) && Pages(free) == n
  {
    var tops := Up(n, TOP);
    UpIsShift(n, TOP);
    assert n == tops * Pow2(TOP);
    forall k | 0 < k < PAGE_NSIZES
      ensures Count(tops, k) <= |bits[k]|
    {
      CountIs(tops, k);
      UpOfMultiple(tops, TOP, k);
      UpMono(n, all, k);
    }
    OnlyTopPages(free);
  }

  lemma {:induction false} CountIs(tops: nat, k: nat)
    requires k <= TOP
    ensures Count(tops, k) == tops * Pow2(TOP - k)
    decreases TOP - k
  {
    if k < TOP { CountIs(tops, k + 1); }
  }

  lemma OnlyTopPages(free: seq<seq<nat>>)
    requires |free| == PAGE_NSIZES && forall k :: 0 <= k < TOP ==> free[k] == []
    ensures Pages(free) == |free[TOP]| * Pow2(TOP)
  {
    NoPages(free[..TOP]);
  }

  lemma {:induction false} NoPages(free: seq<seq<nat>>)
    requires forall k :: 0 <= k < |free| ==> free[k] == []
    ensures Pages(free) == 0
  {
    if free != [] { NoPages(free[..|free| - 1]); }
  }

  lemma WholeCanonical(idx: seq<seq<nat>>, tops: nat)
    requires |idx| == PAGE_NSIZES && forall k :: 0 <= k < TOP ==> idx[k] == []
    requires forall i: nat :: Listed(idx, TOP, i) <==> i < tops
    ensures Canonical(idx, tops, {})
  {
    forall k: nat, i: nat
      ensures Listed(idx, k, i) <==> Canon(tops, {}, k, i)
    {
      assert Free({}, Block(k, i)) && Free({}, Block(k, Buddy(i)));
    }
  }

  lemma {:induction false} NoTailMeansWhole(n: nat, d: nat)
    requires forall k :: 0 <= k < d ==> Up(n, k) % 2 == 0
    ensures n == Up(n, d) * Pow2(d) && 0 < Pow2(d) && n % Pow2(d) == 0
  {
    Pow2Positive(d);
    if d > 0 {
      NoTailMeansWhole(n, d - 1);
      UpStep(n, d - 1);
    }
    DivExact(Up(n, d), Pow2(d));
  }

  lemma TailMeansRemainder(n: nat, k: nat)
    requires k < TOP && Up(n, k) % 2 == 1
    ensures n % Pow2(TOP) != 0
  {
    Pow2Positive(TOP);
    assert Pow2(TOP - k) == 2 * Pow2(TOP - k - 1);
    hide Pow2, Up;
    if n % Pow2(TOP) == 0 {
      var q := n / Pow2(TOP);
      QuotientRemainder(n, Pow2(TOP));
      UpOfMultiple(q, TOP, k);
      EvenMultiple(q, Pow2(TOP - k - 1));
    }
  }

  lemma EvenMultiple(q: nat, p: nat)
    ensures (q * (2 * p)) % 2 == 0
  {
    assert q * (2 * p) == 2 * (q * p);
  }

  lemma {:induction false} UpOfMultiple(q: nat, m: nat, k: nat)
    requires k <= m
    ensures Up(q * Pow2(m), k) == q * Pow2(m - k)
  {
    if k > 0 {
      assert q * Pow2(m) == 2 * (q * Pow2(m - 1));
      UpOfMultiple(q, m - 1, k - 1);
    }
  }

  /** The bit that `bit_check` finds for an address at an order. */
  function PairBit(base: nat, bits: seq<seq<bool>>, order: nat, addr: nat): bool
    requires base <= addr
  {
    Pow2Positive(order);
    Bit(bits, order, CalcIndex(base, order, addr))
  }

  class PageGroup {
    const base: nat
    const limit: nat
    ghost const tops: nat
    var free: seq<seq<nat>>
    var bits: seq<seq<bool>>
    ghost var idx: seq<seq<nat>>
    ghost var out: set<Block>

    /** `_pagegroup_create`.  The group record and the bitmaps are cut off the end of the range;
        what does not fill a largest block goes to the smaller lists, one block per order.

        All bits start clear, so the bitmaps agree with the lists exactly when there is no such
        tail: when the usable pages are a whole number of largest blocks. */
    constructor Create(start: nat, end: nat)
      requires start % PAGE_SIZE == 0 && end % PAGE_SIZE == 0 && start < end
      ensures base == start && start <= limit < end && limit % PAGE_SIZE == 0 && out == {}
      ensures var n := (limit - start) / PAGE_SIZE;
              && tops == Up(n, TOP)
              && |idx| == PAGE_NSIZES && (forall k :: 0 <= k < TOP ==> idx[k] == TailBlock(n, k))
              && (forall i: nat :: Listed(idx, TOP, i) <==> i < tops)
              && (forall k: nat, t: nat :: !Bit(bits, k, t))
              && 0 < Pow2(TOP)
              && (BitsAgree(idx, bits) <==> n % Pow2(TOP) == 0)
              && (n % Pow2(TOP) == 0 ==> Valid() && Pages(free) == n)
    {
      hide Up, AddrOf, Canonical, BitsAgree, Pages, Pow2, TailBlock, Bit, Count, Addrs, AlignDown;
      Pow2Positive(TOP);
      var npages := (end - start) / PAGE_SIZE;
      var cut, maps := Bitmaps(npages, end - GROUP_RECORD);
      RangeArith(start, end, cut);
      cut := AlignDown(cut);
      ghost var all := npages;
      npages := (cut - start) / PAGE_SIZE;
      var rest, lists, nums := Tails(start, npages);
      var topList, topNums := TopBlocks(start, rest, Up(npages, TOP));
      base, limit := start, cut;
      free, bits := lists + [topList], maps;
      idx, out, tops := nums + [topNums], {}, Up(npages, TOP);
      new;
      TailsDecide(idx, bits, npages);
      if npages % Pow2(TOP) == 0 {
        WholeGroup(start, npages, all, free, bits, idx);
      }
    }

    /** Between calls the lists are the canonical ones for the outstanding blocks. */
    ghost predicate Valid()
      reads this
    {
      && limit == AddrOf(base, TOP, tops)
      && Shape(base, tops, free, bits, idx) && Canonical(idx, tops, out) && Outstanding(tops, out)
    }

    ghost predicate PendingAt(k: nat, i: nat)
      reads this
    {
      && limit == AddrOf(base, TOP, tops)
      && Pending(base, tops, free, bits, idx, out, k, i) && Outstanding(tops, out)
    }

    lemma HeadIsPending(k: nat)
      requires Valid() && k <= TOP && free[k] != []
      ensures idx[k] != [] && PendingAt(k, idx[k][0])
    {
      MakePending(idx, tops, out, k, idx[k][0]);
    }

    /** `__page_split`: the head block of a list is replaced by its two halves on the list below,
        the upper half first.  The source's assertion holds and no page is lost. */
    method SplitHead(order: nat)
      requires 0 < order <= TOP && |idx| == PAGE_NSIZES && idx[order] != [] && PendingAt(order, idx[order][0])
      modifies this`free, this`bits, this`idx
      ensures |idx| == PAGE_NSIZES && idx[order - 1] != [] && PendingAt(order - 1, idx[order - 1][0])
      ensures idx[order - 1][0] == 2 * old(idx[order][0]) + 1
      ensures Pages(free) == old(Pages(free))
    {
      hide Pending, Outstanding, Pages, Size, CalcIndex, Flip, Bit;
      SplitCorrect(base, tops, free, bits, idx, out, order);
      ghost var i := idx[order][0];
      var target := free[order][0];
      free := free[order := free[order][1..]];
      if order < TOP {
        bits := Flip(bits, order + 1, CalcIndex(base, order + 1, target));
      }
      assert !Bit(bits, order, CalcIndex(base, order, target));
      var buddy := target + Size(order - 1);
      free := free[order - 1 := [buddy, target] + free[order - 1]];
      idx := Push(Push(Drop(idx, order, i), order - 1, 2 * i), order - 1, 2 * i + 1);
    }

    /** The inner loop of `_page_split`: a listed block of a larger order is split down to `order`. */
    method SplitTo(norder: nat, order: nat)
      requires order <= norder <= TOP && |idx| == PAGE_NSIZES && idx[norder] != [] && PendingAt(norder, idx[norder][0])
      modifies this`free, this`bits, this`idx
      ensures |idx| == PAGE_NSIZES && idx[order] != [] && PendingAt(order, idx[order][0])
      ensures Pages(free) == old(Pages(free))
    {
      hide Pending, Outstanding, Pages, AddrOf;
      var n := norder;
      while n > order
        invariant order <= n <= TOP && |idx| == PAGE_NSIZES && idx[n] != [] && PendingAt(n, idx[n][0])
        invariant Pages(free) == old(Pages(free))
      {
        SplitHead(n);
        n := n - 1;
      }
    }

    /** The end of `_page_alloc_order`: the head of a list is handed out. */
    method TakeHead(order: nat) returns (addr: nat)
      requires order <= TOP && |idx| == PAGE_NSIZES && idx[order] != [] && PendingAt(order, idx[order][0])
      modifies this
      ensures Valid()
      ensures var b := Block(order, old(idx[order][0]));
              addr == AddrOf(base, order, b.index) && b !in old(out) && out == old(out) + {b}
      ensures Pages(free) + Pow2(order) == old(Pages(free))
    {
      hide Pending, Shape, Canonical, Outstanding, Pages, CalcIndex, Flip, AddrOf;
      TakeCorrect(base, tops, free, bits, idx, out, order);
      ghost var i := idx[order][0];
      addr := free[order][0];
      free := free[order := free[order][1..]];
      if order < TOP {
        bits := Flip(bits, order + 1, CalcIndex(base, order + 1, addr));
      }
      idx := Drop(idx, order, i);
      out := out + {Block(order, i)};
    }

    /** Splits the head of a nonempty list down to `order` and hands out the result. */
    method AllocFrom(norder: nat, order: nat) returns (addr: nat, ghost i: nat)
      requires Valid() && order <= norder <= TOP && norder < |free| && free[norder] != []
      modifies this
      ensures Valid()
      ensures addr == AddrOf(base, order, i) && Block(order, i) !in old(out) && out == old(out) + {Block(order, i)}
      ensures Pages(free) + Pow2(order) == old(Pages(free))
    {
      HeadIsPending(norder);
      hide Shape, Canonical, Pending, Outstanding, Pages, Pow2, AddrOf;
      SplitTo(norder, order);
      i := idx[order][0];
      addr := TakeHead(order);
    }

    /** `__page_join`: as long as the pair bit is clear the block is joined with its buddy, which
        is then always on the list it is unlinked from. */
    method Join(order0: nat, addr0: nat, ghost i0: nat)
      requires order0 <= TOP && PendingAt(order0, i0) && addr0 == AddrOf(base, order0, i0) >= base
      modifies this`free, this`bits, this`idx
      ensures Valid()
      ensures Pages(free) == old(Pages(free))
    {
      hide Pending, Shape, CanonicalPlus, Canonical, Outstanding, Pages, CalcIndex, Flip, AddrOf, PairBit, Free, Size,
             Buddy;
      var order: nat, addr: nat := order0, addr0;
      ghost var i: nat := i0;
      while order < TOP && !PairBit(base, bits, order + 1, addr)
        invariant PendingAt(order, i) && addr == AddrOf(base, order, i) >= base && order <= TOP
        invariant Pages(free) == old(Pages(free))
        decreases TOP - order
      {
        JoinTest(base, tops, free, bits, idx, out, order, i);
        JoinCorrect(base, tops, free, bits, idx, out, order, i);
        JoinParity(base, order, i);
        BuddyAddr(base, order, i);
        var offset := addr - base;
        var buddy: nat := if ((offset / PAGE_SIZE) / Pow2(order)) % 2 == 1 then addr - Size(order)
              else addr + Size(order);
        assert buddy == AddrOf(base, order, Buddy(i));
        assert buddy in free[order];
        free := free[order := Without(Without(free[order], addr), buddy)];
        addr := if addr < buddy then addr else buddy;
        order := order + 1;
        free := free[order := [addr] + free[order]];
        if order < TOP {
          bits := Flip(bits, order + 1, CalcIndex(base, order + 1, addr));
        }
        idx := Push(Drop(Drop(idx, order - 1, i), order - 1, Buddy(i)), order, i / 2);
        i := i / 2;
      }
      JoinDone(base, tops, free, bits, idx, out, order, i);
    }

    /** `_page_free_order` inside its group: an outstanding block comes back. */
    method GiveBack(order: nat, addr: nat, ghost i: nat)
      requires Valid() && Block(order, i) in out && addr == AddrOf(base, order, i)
      modifies this
      ensures Valid() && out == old(out) - {Block(order, i)}
      ensures Pages(free) == old(Pages(free)) + Pow2(order)
    {
      hide Pending, Shape, Canonical, CanonicalPlus, Outstanding, Pages, CalcIndex, Flip, AddrOf;
      GiveCorrect(base, tops, free, bits, idx, out, order, i);
      free := free[order := [addr] + free[order]];
      idx := Push(idx, order, i);
      out := out - {Block(order, i)};
      if order < TOP {
        bits := Flip(bits, order + 1, CalcIndex(base, order + 1, addr));
        Join(order, addr, i);
      } else {
        JoinDone(base, tops, free, bits, idx, out, order, i);
      }
    }
  }

  /** The list head leaves its list and becomes outstanding. */
  lemma TakeCorrect(base: nat, tops: nat, free: seq<seq<nat>>, bits: seq<seq<bool>>, idx: seq<seq<nat>>,
                    out: set<Block>, k: nat)
    requires k <= TOP && |idx| == PAGE_NSIZES && idx[k] != []
    requires Pending(base, tops, free, bits, idx, out, k, idx[k][0]) && Outstanding(tops, out)
    ensures |free| == |bits| == PAGE_NSIZES && free[k] != [] && NoDup(idx[k])
    ensures base <= free[k][0] && 0 < Pow2(k + 1)
    ensures var i, t := idx[k][0], free[k][0];
            var n := CalcIndex(base, k + 1, t);
            && t == AddrOf(base, k, i)
            && (k < TOP ==> n < |bits[k + 1]|)
            && var bits' := if k < TOP then Flip(bits, k + 1, n) else bits;
               var free', idx', out' := free[k := free[k][1..]], Drop(idx, k, i), out + {Block(k, i)};
               && Shape(base, tops, free', bits', idx') && Canonical(idx', tops, out') && Outstanding(tops, out')
               && Block(k, i) !in out
               && Pages(free') + Pow2(k) == Pages(free)
  {
    hide BitsAgree, CanonicalPlus, Canonical, Canon, Free, Addrs, Pages, Size, AddrOf, Pow2, CalcIndex, Count,
           Outstanding;
    var i := idx[k][0];
    PopHead(base, tops, free, bits, idx, k);
    PairIndex(base, k, i);
    TakePending(idx, Drop(idx, k, i), tops, out, k, i);
    OutstandingAdd(tops, out, Block(k, i));
    PagesUpdate(free, k, free[k][1..]);
    TakeArith(|free[k]|, Pow2(k));
  }

  /** The bit that `__page_join` reads tells whether the buddy is listed. */
  lemma JoinTest(base: nat, tops: nat, free: seq<seq<nat>>, bits: seq<seq<bool>>, idx: seq<seq<nat>>,
                 out: set<Block>, k: nat, i: nat)
    requires Pending(base, tops, free, bits, idx, out, k, i) && k < TOP
    ensures base <= AddrOf(base, k, i)
    ensures PairBit(base, bits, k + 1, AddrOf(base, k, i)) <==> !Listed(idx, k, Buddy(i))
  {
    hide BitsAgree, Canon, Free, Pow2, CalcIndex, AddrOf;
    PairIndex(base, k, i);
    BitOfPair(idx, bits, k, i / 2);
    BuddyInRange(tops, k, i);
    assert Listed(idx, k, i);
  }

  /** Where `__page_join` stops the lists are canonical. */
  lemma JoinDone(base: nat, tops: nat, free: seq<seq<nat>>, bits: seq<seq<bool>>, idx: seq<seq<nat>>,
                 out: set<Block>, k: nat, i: nat)
    requires Pending(base, tops, free, bits, idx, out, k, i) && base <= AddrOf(base, k, i)
    requires k < TOP ==> PairBit(base, bits, k + 1, AddrOf(base, k, i))
    ensures Shape(base, tops, free, bits, idx) && Canonical(idx, tops, out)
  {
    hide PairBit, Canon, Free, Shape;
    if k < TOP {
      JoinTest(base, tops, free, bits, idx, out, k, i);
    }
    Settle(idx, tops, out, k, i);
  }

  /** One turn of `__page_join` with the buddy listed: both are unlinked and their union is linked
      and flipped in. */
  lemma JoinCorrect(base: nat, tops: nat, free: seq<seq<nat>>, bits: seq<seq<bool>>, idx: seq<seq<nat>>,
                    out: set<Block>, k: nat, i: nat)
    requires Pending(base, tops, free, bits, idx, out, k, i) && k < TOP && Listed(idx, k, Buddy(i))
    ensures |free| == |bits| == |idx| == PAGE_NSIZES && NoDup(idx[k]) && Listed(idx, k, i)
    ensures Listed(Drop(idx, k, i), k, Buddy(i)) && NoDup(Drop(idx, k, i)[k])
    ensures var a, b, c := AddrOf(base, k, i), AddrOf(base, k, Buddy(i)), AddrOf(base, k + 1, i / 2);
            && base <= c && 0 < Pow2(k + 2) && b in free[k]
            && var n := CalcIndex(base, k + 2, c);
            && (k + 1 < TOP ==> n < |bits[k + 2]|)
            && var bits' := if k + 1 < TOP then Flip(bits, k + 2, n) else bits;
               var idx' := Push(Drop(Drop(idx, k, i), k, Buddy(i)), k + 1, i / 2);
               var free' := free[k := Without(Without(free[k], a), b)][k + 1 := [c] + free[k + 1]];
               && Pending(base, tops, free', bits', idx', out, k + 1, i / 2)
               && Pages(free') == Pages(free)
  {
    hide BitsAgree, CanonicalPlus, Canon, Free, Addrs, Pages, Size, AddrOf, Pow2, CalcIndex, Count, Buddy;
    assert Listed(idx, k, i) by { PendingListed(idx, tops, out, k, i); }
    AddrListed(base, k, idx[k], Buddy(i));
    DropPair(base, tops, free, bits, idx, k, i);
    var idx1 := Drop(Drop(idx, k, i), k, Buddy(i));
    var list := Without(Without(free[k], AddrOf(base, k, i)), AddrOf(base, k, Buddy(i)));
    var idx' := Push(idx1, k + 1, i / 2);
    JoinPending(idx, idx', tops, out, k, i);
    PairIndex(base, k + 1, i / 2);
    PushHead(base, tops, free[k := list], bits, idx1, k + 1, i / 2);
    JoinPages(free, k, list, AddrOf(base, k + 1, i / 2));
  }

  lemma AddrListed(base: nat, k: nat, s: seq<nat>, i: nat)
    requires i in s
    ensures AddrOf(base, k, i) in Addrs(base, k, s)
  {
    var t :| 0 <= t < |s| && s[t] == i;
    assert Addrs(base, k, s)[t] == AddrOf(base, k, i);
  }

  lemma PendingListed(idx: seq<seq<nat>>, tops: nat, out: set<Block>, k: nat, i: nat)
    requires CanonicalPlus(idx, tops, out, k, i)
    ensures Listed(idx, k, i)
  {
  }

  lemma JoinPages(free: seq<seq<nat>>, k: nat, list: seq<nat>, a: nat)
    requires k + 1 < |free| && |list| == |free[k]| - 2
    ensures Pages(free[k := list][k + 1 := [a] + free[k + 1]]) == Pages(free)
  {
    PagesUpdate(free, k, list);
    PagesUpdate(free[k := list], k + 1, [a] + free[k + 1]);
    PagesArith(|free[k + 1]| + 1, |list|, Pow2(k));
  }

  /** The parity that selects the buddy, computed from the offset as in the source. */
  lemma JoinParity(base: nat, k: nat, i: nat)
    ensures base <= AddrOf(base, k, i) && 0 < Pow2(k)
    ensures ((AddrOf(base, k, i) - base) / PAGE_SIZE) / Pow2(k) == i
  {
    Pow2Positive(k);
    assert i * (PAGE_SIZE * Pow2(k)) == (i * Pow2(k)) * PAGE_SIZE;
    DivExact(i * Pow2(k), PAGE_SIZE);
    DivExact(i, Pow2(k));
  }

  /** Linking an outstanding block into its list. */
  lemma GiveCorrect(base: nat, tops: nat, free: seq<seq<nat>>, bits: seq<seq<bool>>, idx: seq<seq<nat>>,
                    out: set<Block>, k: nat, i: nat)
    requires Shape(base, tops, free, bits, idx) && Canonical(idx, tops, out) && Outstanding(tops, out)
    requires Block(k, i) in out
    ensures k <= TOP && |free| == |bits| == |idx| == PAGE_NSIZES
    ensures var a := AddrOf(base, k, i);
            && base <= a && 0 < Pow2(k + 1)
            && var n := CalcIndex(base, k + 1, a);
            && (k < TOP ==> n < |bits[k + 1]|)
            && var bits' := if k < TOP then Flip(bits, k + 1, n) else bits;
               var free', idx', out' := free[k := [a] + free[k]], Push(idx, k, i), out - {Block(k, i)};
               && Pending(base, tops, free', bits', idx', out', k, i) && Outstanding(tops, out')
               && Pages(free') == Pages(free) + Pow2(k)
  {
    hide BitsAgree, CanonicalPlus, Canonical, Canon, Free, Addrs, Pages, Size, AddrOf, Pow2, CalcIndex, Count;
    OutstandingRemove(tops, out, Block(k, i));
    GivePending(idx, Push(idx, k, i), tops, out - {Block(k, i)}, k, i);
    PairIndex(base, k, i);
    PushHead(base, tops, free, bits, idx, k, i);
    PagesUpdate(free, k, [AddrOf(base, k, i)] + free[k]);
    TakeArith(|free[k]|, Pow2(k));
  }

  lemma TakeArith(n: int, p: int)
    ensures (n - 1) * p - n * p + p == 0 && (n + 1) * p - n * p == p
  {
  }

  lemma SplitCorrect(base: nat, tops: nat, free: seq<seq<nat>>, bits: seq<seq<bool>>, idx: seq<seq<nat>>,
                     out: set<Block>, k: nat)
    requires 0 < k <= TOP && |idx| == PAGE_NSIZES && idx[k] != []
    requires Pending(base, tops, free, bits, idx, out, k, idx[k][0])
    ensures |free| == |bits| == PAGE_NSIZES && free[k] != [] && NoDup(idx[k])
    ensures base <= free[k][0] && 0 < Pow2(k) && 0 < Pow2(k + 1)
    ensures var i, t := idx[k][0], free[k][0];
            var n := CalcIndex(base, k + 1, t);
            && (k < TOP ==> n < |bits[k + 1]|)
            && var bits' := if k < TOP then Flip(bits, k + 1, n) else bits;
               var idx' := Push(Push(Drop(idx, k, i), k - 1, 2 * i), k - 1, 2 * i + 1);
               var free' := free[k := free[k][1..]][k - 1 := [t + Size(k - 1), t] + free[k - 1]];
               && !Bit(bits', k, CalcIndex(base, k, t))
               && idx'[k - 1][0] == 2 * i + 1
               && Pending(base, tops, free', bits', idx', out, k - 1, 2 * i + 1)
               && Pages(free') == Pages(free)
  {
    hide BitsAgree, CanonicalPlus, Canon, Free, Addrs, Pages, Size, AddrOf, Pow2, CalcIndex, Count;
    var i := idx[k][0];
    PopHead(base, tops, free, bits, idx, k);
    var t := free[k][0];
    PairIndex(base, k, i);
    IndexOfAddr(base, k, i);
    var bits' := if k < TOP then Flip(bits, k + 1, i / 2) else bits;
    var idx1 := Drop(idx, k, i);
    var idx' := Push(Push(idx1, k - 1, 2 * i), k - 1, 2 * i + 1);
    SplitPending(idx, idx', tops, out, k - 1, i);
    BitOfPair(idx1, bits', k - 1, i);
    PushPair(base, tops, free[k := free[k][1..]], bits', idx1, k - 1, i);
    SplitPages(free, k, t + Size(k - 1), t);
  }

  lemma BitOfPair(idx: seq<seq<nat>>, bits: seq<seq<bool>>, k: nat, p: nat)
    requires BitsAgree(idx, bits) && k < TOP
    ensures Bit(bits, k + 1, p) <==> (Listed(idx, k, 2 * p) != Listed(idx, k, 2 * p + 1))
  {
  }

  lemma SplitPages(free: seq<seq<nat>>, k: nat, a: nat, b: nat)
    requires 0 < k < |free| && free[k] != []
    ensures Pages(free[k := free[k][1..]][k - 1 := [a, b] + free[k - 1]]) == Pages(free)
  {
    var f := free[k := free[k][1..]];
    PagesUpdate(free, k, free[k][1..]);
    PagesUpdate(f, k - 1, [a, b] + free[k - 1]);
    PagesArith(|free[k]|, |free[k - 1]|, Pow2(k - 1));
  }

  lemma PagesArith(n: int, m: int, p: int)
    ensures (n - 1) * (2 * p) - n * (2 * p) + (m + 2) * p - m * p == 0
  {
  }
}
