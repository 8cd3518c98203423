/** The free lists and buddy bitmaps of one page group, as values: how they show a set of
    canonical blocks, and what each list operation does to them. */
module BuddyLists {
  import opened Arithmetic
  import opened BuddyBlocks
  import opened Lists
  import opened PageSizes

  function AddrOf(base: nat, k: nat, i: nat): nat { base + i * Size(k) }

  /** `_pagegroup_calculate_index`: the offset shifted right by the order, then by the page shift. */
  function CalcIndex(base: nat, order: nat, addr: nat): nat
    requires base <= addr && 0 < Pow2(order)
  {
    QuotientRemainder(addr - base, Pow2(order));
    ((addr - base) / Pow2(order)) / PAGE_SIZE
  }

  function Bit(bits: seq<seq<bool>>, k: nat, t: nat): bool {
    k < |bits| && t < |bits[k]| && bits[k][t]
  }

  function Flip(bits: seq<seq<bool>>, k: nat, t: nat): (bits': seq<seq<bool>>)
    requires k < |bits| && t < |bits[k]|
    ensures |bits'| == |bits| && forall j :: 0 <= j < |bits| ==> |bits'[j]| == |bits[j]|
    ensures forall j: nat, s: nat :: Bit(bits', j, s) <==> (Bit(bits, j, s) != (j == k && s == t))
  {
    bits[k := bits[k][t := !bits[k][t]]]
  }

  /** The addresses of a list of blocks of one order. */
  function Addrs(base: nat, k: nat, s: seq<nat>): seq<nat> {
    seq(|s|, t requires 0 <= t < |s| => AddrOf(base, k, s[t]))
  }

  lemma AddrInjective(base: nat, k: nat, i: nat, j: nat)
    requires AddrOf(base, k, i) == AddrOf(base, k, j)
    ensures i == j
  {
    Pow2Positive(k);
    var z := Size(k);
    if i < j {
      MulLess(i, j, z);
    } else if j < i {
      MulLess(j, i, z);
    }
  }

  lemma {:induction false} WithoutAddrs(base: nat, k: nat, s: seq<nat>, x: nat)
    ensures Without(Addrs(base, k, s), AddrOf(base, k, x)) == Addrs(base, k, Without(s, x))
  {
    if s != [] {
      if AddrOf(base, k, s[0]) == AddrOf(base, k, x) { AddrInjective(base, k, s[0], x); }
      assert Addrs(base, k, s)[1..] == Addrs(base, k, s[1..]);
      WithoutAddrs(base, k, s[1..], x);
    }
  }

  /** A block starts where its half block of even index starts; the odd half starts half way. */
  lemma AddrHalves(base: nat, k: nat, i: nat)
    ensures AddrOf(base, k, 2 * i) == AddrOf(base, k + 1, i)
    ensures AddrOf(base, k, 2 * i + 1) == AddrOf(base, k + 1, i) + Size(k)
  {
    HalvesArith(i, Size(k));
    assert Size(k + 1) == 2 * Size(k);
  }

  lemma HalvesArith(i: nat, z: nat)
    ensures (2 * i) * z == i * (2 * z) && (2 * i + 1) * z == i * (2 * z) + z
  {
  }

  /** The address arithmetic of `__page_join`: the buddy is one block up or down by the parity of
      the block number, and the joined block starts at the lower of the two. */
  lemma BuddyAddr(base: nat, k: nat, i: nat)
    ensures AddrOf(base, k, Buddy(i)) ==
            if i % 2 == 1 then AddrOf(base, k, i) - Size(k) else AddrOf(base, k, i) + Size(k)
    ensures AddrOf(base, k + 1, i / 2) ==
            if i % 2 == 1 then AddrOf(base, k, Buddy(i)) else AddrOf(base, k, i)
  {
    AddrHalves(base, k, i / 2);
  }

  lemma IndexOfAddr(base: nat, k: nat, i: nat)
    ensures base <= AddrOf(base, k, i) && 0 < Pow2(k) && CalcIndex(base, k, AddrOf(base, k, i)) == i
  {
    Pow2Positive(k);
    var p := Pow2(k);
    IndexArith(i, p);
  }

  lemma IndexArith(i: nat, p: nat)
    requires 0 < p
    ensures ((i * (PAGE_SIZE * p)) / p) / PAGE_SIZE == i
  {
    assert i * (PAGE_SIZE * p) == (i * PAGE_SIZE) * p;
    DivExact(i * PAGE_SIZE, p);
  }

  /** The pair bit of a block, found from the block's own address. */
  lemma PairIndex(base: nat, k: nat, i: nat)
    ensures base <= AddrOf(base, k, i) && 0 < Pow2(k + 1)
    ensures CalcIndex(base, k + 1, AddrOf(base, k, i)) == i / 2
  {
    Pow2Positive(k);
    BuddyAddr(base, k, i);
    if i % 2 == 0 {
      IndexOfAddr(base, k + 1, i / 2);
    } else {
      AddrHalves(base, k, i / 2);
      OddIndex(i / 2, Pow2(k));
    }
  }

  lemma OddIndex(i: nat, p: nat)
    requires 0 < p
    ensures ((i * (PAGE_SIZE * (2 * p)) + PAGE_SIZE * p) / (2 * p)) / PAGE_SIZE == i
  {
    var a := i * PAGE_SIZE + 2048;
    assert i * (PAGE_SIZE * (2 * p)) == (i * PAGE_SIZE) * (2 * p);
    assert i * (PAGE_SIZE * (2 * p)) + PAGE_SIZE * p == a * (2 * p);
    DivExact(a, 2 * p);
  }

  // ----- lists and bitmaps together -----

  ghost predicate Listed(idx: seq<seq<nat>>, k: nat, i: nat) {
    k < |idx| && i in idx[k]
  }

  /** The lists hold exactly the canonical blocks for the outstanding set. */
  ghost predicate Canonical(idx: seq<seq<nat>>, tops: nat, out: set<Block>) {
    && |idx| == PAGE_NSIZES
    && forall k: nat, i: nat :: Listed(idx, k, i) <==> Canon(tops, out, k, i)
  }

  /** The lists hold the canonical blocks for the outstanding set with block (k0, i0) added, and
      that block itself. */
  ghost predicate CanonicalPlus(idx: seq<seq<nat>>, tops: nat, out: set<Block>, k0: nat, i0: nat) {
    && |idx| == PAGE_NSIZES
    && forall k: nat, i: nat :: Listed(idx, k, i)
         <==> Canon(tops, out + {Block(k0, i0)}, k, i) || (k == k0 && i == i0)
  }

  /** Every pair bit is the exclusive or of "lower half listed" and "upper half listed". */
  ghost predicate BitsAgree(idx: seq<seq<nat>>, bits: seq<seq<bool>>) {
    forall k: nat, t: nat :: k < TOP ==>
      (Bit(bits, k + 1, t) <==> (Listed(idx, k, 2 * t) != Listed(idx, k, 2 * t + 1)))
  }

  /** One block enters or leaves its list and its pair bit is flipped. */
  lemma FlipOne(idx: seq<seq<nat>>, idx': seq<seq<nat>>, bits: seq<seq<bool>>, k0: nat, i0: nat)
    requires BitsAgree(idx, bits) && k0 < TOP && TOP < |bits| && i0 / 2 < |bits[k0 + 1]|
    requires forall k: nat, i: nat :: Listed(idx', k, i) <==> (Listed(idx, k, i) != (k == k0 && i == i0))
    ensures BitsAgree(idx', Flip(bits, k0 + 1, i0 / 2))
  {
  }

  lemma TopNeedsNoBit(idx: seq<seq<nat>>, idx': seq<seq<nat>>, bits: seq<seq<bool>>, i0: nat)
    requires BitsAgree(idx, bits)
    requires forall k: nat, i: nat :: Listed(idx', k, i) <==> (Listed(idx, k, i) != (k == TOP && i == i0))
    ensures BitsAgree(idx', bits)
  {
  }

  /** Both buddies of a pair enter or leave together and the bit stays. */
  lemma PairTogether(idx: seq<seq<nat>>, idx': seq<seq<nat>>, bits: seq<seq<bool>>, k0: nat, p: nat)
    requires BitsAgree(idx, bits)
    requires Listed(idx, k0, 2 * p) <==> Listed(idx, k0, 2 * p + 1)
    requires forall k: nat, i: nat ::
               Listed(idx', k, i) <==> (Listed(idx, k, i) != (k == k0 && (i == 2 * p || i == 2 * p + 1)))
    ensures BitsAgree(idx', bits)
  {
    forall k: nat, t: nat | k < TOP
      ensures Bit(bits, k + 1, t) <==> (Listed(idx', k, 2 * t) != Listed(idx', k, 2 * t + 1))
    {
      assert Bit(bits, k + 1, t) <==> (Listed(idx, k, 2 * t) != Listed(idx, k, 2 * t + 1));
    }
  }

  // ----- the canonical lists under the allocator's steps -----

  /** With nothing pending, any listed block may be regarded as pending. */
  lemma MakePending(idx: seq<seq<nat>>, tops: nat, out: set<Block>, k0: nat, i0: nat)
    requires Canonical(idx, tops, out) && Listed(idx, k0, i0)
    ensures CanonicalPlus(idx, tops, out, k0, i0)
    ensures Free(out, Block(k0, i0)) && i0 < Count(tops, k0)
  {
    forall k: nat, i: nat
      ensures Listed(idx, k, i) <==> Canon(tops, out + {Block(k0, i0)}, k, i) || (k == k0 && i == i0)
    {
      TakeCanon(tops, out, k0, i0, k, i);
    }
  }

  /** A pending block with no free buddy settles: the lists are canonical without it. */
  lemma Settle(idx: seq<seq<nat>>, tops: nat, out: set<Block>, k0: nat, i0: nat)
    requires CanonicalPlus(idx, tops, out, k0, i0) && k0 <= TOP && i0 < Count(tops, k0)
    requires Free(out, Block(k0, i0))
    requires k0 < TOP ==> !Listed(idx, k0, Buddy(i0))
    ensures Canonical(idx, tops, out)
  {
    if k0 < TOP {
      BuddyInRange(tops, k0, i0);
      FreeAdd(out, Block(k0, i0), Block(k0, Buddy(i0)));
      FreeAdd(out, Block(k0, i0), Block(k0, i0));
      assert !Canon(tops, out + {Block(k0, i0)}, k0, Buddy(i0));
    }
    forall k: nat, i: nat
      ensures Listed(idx, k, i) <==> Canon(tops, out, k, i)
    {
      TakeCanon(tops, out, k0, i0, k, i);
    }
  }

  /** The pending block's buddy is listed exactly when it is wholly free. */
  lemma BuddyListedIffFree(idx: seq<seq<nat>>, tops: nat, out: set<Block>, k0: nat, i0: nat)
    requires CanonicalPlus(idx, tops, out, k0, i0) && k0 < TOP && i0 < Count(tops, k0)
    ensures Listed(idx, k0, Buddy(i0)) <==> Free(out, Block(k0, Buddy(i0)))
  {
    BuddyInRange(tops, k0, i0);
    FreeAdd(out, Block(k0, i0), Block(k0, Buddy(i0)));
    FreeAdd(out, Block(k0, i0), Block(k0, i0));
  }

  /** Joining the pending block with its listed buddy makes their union pending. */
  lemma JoinPending(idx: seq<seq<nat>>, idx': seq<seq<nat>>, tops: nat, out: set<Block>, k0: nat, i0: nat)
    requires CanonicalPlus(idx, tops, out, k0, i0) && k0 < TOP && i0 < Count(tops, k0)
    requires Free(out, Block(k0, i0)) && Listed(idx, k0, Buddy(i0))
    requires |idx'| == PAGE_NSIZES
    requires forall k: nat, i: nat :: Listed(idx', k, i)
               <==> (Listed(idx, k, i) && !(k == k0 && (i == i0 || i == Buddy(i0)))) || (k == k0 + 1 && i == i0 / 2)
    ensures CanonicalPlus(idx', tops, out, k0 + 1, i0 / 2)
    ensures Free(out, Block(k0 + 1, i0 / 2)) && i0 / 2 < Count(tops, k0 + 1)
    ensures !Listed(idx, k0 + 1, i0 / 2)
  {
    BuddyInRange(tops, k0, i0);
    hide Up, Overlap, Free, Count, Buddy;
    var b, p := Buddy(i0), i0 / 2;
    var mid := out + {Block(k0, i0)};
    BuddyListedIffFree(idx, tops, out, k0, i0);
    FreeHalves(out, k0, p);
    assert out + {Block(k0, 2 * p)} + {Block(k0, 2 * p + 1)} == mid + {Block(k0, b)};
    OverlapHalves(k0, p, Block(k0, i0));
    OverlapSameOrder(k0, i0, i0);
    OverlapSymmetric(Block(k0 + 1, p), Block(k0, i0));
    FreeAdd(out, Block(k0, i0), Block(k0 + 1, p));
    FreeAdd(out, Block(k0, i0), Block(k0, i0));
    forall k: nat, i: nat
      ensures Listed(idx', k, i) <==> Canon(tops, out + {Block(k0 + 1, p)}, k, i) || (k == k0 + 1 && i == p)
    {
      TakeCanon(tops, mid, k0, b, k, i);
      JoinOutstanding(tops, out, k0, p, k, i);
    }
  }

  /** Splitting the pending block leaves its upper half pending and its lower half canonical. */
  lemma SplitPending(idx: seq<seq<nat>>, idx': seq<seq<nat>>, tops: nat, out: set<Block>, k0: nat, i0: nat)
    requires CanonicalPlus(idx, tops, out, k0 + 1, i0) && k0 < TOP && i0 < Count(tops, k0 + 1)
    requires Free(out, Block(k0 + 1, i0))
    requires |idx'| == PAGE_NSIZES
    requires forall k: nat, i: nat :: Listed(idx', k, i)
               <==> (Listed(idx, k, i) && !(k == k0 + 1 && i == i0)) || (k == k0 && (i == 2 * i0 || i == 2 * i0 + 1))
    ensures CanonicalPlus(idx', tops, out, k0, 2 * i0 + 1)
    ensures Free(out, Block(k0, 2 * i0 + 1)) && 2 * i0 + 1 < Count(tops, k0)
    ensures !Listed(idx, k0, 2 * i0) && !Listed(idx, k0, 2 * i0 + 1)
  {
    assert 2 * i0 + 1 < Count(tops, k0);
    var lo, hi, mid := Block(k0, 2 * i0), Block(k0, 2 * i0 + 1), out + {Block(k0, 2 * i0 + 1)};
    SplitHalves(tops, out, k0, i0);
    hide Up, Overlap, Free, Count, Buddy;
    assert out + {lo} + {hi} == mid + {lo};
    forall k: nat, i: nat
      ensures Listed(idx', k, i) <==> Canon(tops, mid, k, i) || (k == k0 && i == 2 * i0 + 1)
    {
      TakeCanon(tops, mid, k0, 2 * i0, k, i);
      JoinOutstanding(tops, out, k0, i0, k, i);
    }
  }

  /** With the upper half of a free block outstanding its lower half is canonical; with the whole
      block outstanding neither half, nor the block, is. */
  lemma SplitHalves(tops: nat, out: set<Block>, k0: nat, i0: nat)
    requires k0 < TOP && 2 * i0 + 1 < Count(tops, k0) && Free(out, Block(k0 + 1, i0))
    ensures Free(out, Block(k0, 2 * i0 + 1))
    ensures Canon(tops, out + {Block(k0, 2 * i0 + 1)}, k0, 2 * i0)
    ensures var all := out + {Block(k0 + 1, i0)};
            && !Canon(tops, all, k0, 2 * i0) && !Canon(tops, all, k0, 2 * i0 + 1)
            && !Canon(tops, all, k0 + 1, i0)
  {
    hide Up, Overlap, Free, Count;
    var lo, hi, whole := Block(k0, 2 * i0), Block(k0, 2 * i0 + 1), Block(k0 + 1, i0);
    FreeHalves(out, k0, i0);
    OverlapSameOrder(k0, 2 * i0, 2 * i0);
    OverlapSameOrder(k0, 2 * i0 + 1, 2 * i0);
    OverlapSameOrder(k0, 2 * i0 + 1, 2 * i0 + 1);
    OverlapSameOrder(k0 + 1, i0, i0);
    OverlapHalves(k0, i0, lo);
    OverlapHalves(k0, i0, hi);
    FreeAdd(out, hi, lo);
    FreeAdd(out, hi, hi);
    FreeAdd(out, whole, lo);
    FreeAdd(out, whole, hi);
    FreeAdd(out, whole, whole);
  }

  /** Taking the pending block off its list leaves the lists canonical with it outstanding. */
  lemma TakePending(idx: seq<seq<nat>>, idx': seq<seq<nat>>, tops: nat, out: set<Block>, k0: nat, i0: nat)
    requires CanonicalPlus(idx, tops, out, k0, i0) && |idx'| == PAGE_NSIZES
    requires forall k: nat, i: nat :: Listed(idx', k, i) <==> Listed(idx, k, i) && !(k == k0 && i == i0)
    ensures Canonical(idx', tops, out + {Block(k0, i0)})
  {
    FreeAdd(out, Block(k0, i0), Block(k0, i0));
  }

  /** Putting an outstanding block on its list makes it pending. */
  lemma GivePending(idx: seq<seq<nat>>, idx': seq<seq<nat>>, tops: nat, out: set<Block>, k0: nat, i0: nat)
    requires Canonical(idx, tops, out + {Block(k0, i0)}) && |idx'| == PAGE_NSIZES
    requires forall k: nat, i: nat :: Listed(idx', k, i) <==> Listed(idx, k, i) || (k == k0 && i == i0)
    ensures CanonicalPlus(idx', tops, out, k0, i0) && !Listed(idx, k0, i0)
  {
    FreeAdd(out, Block(k0, i0), Block(k0, i0));
  }

  // ----- consequences of being canonical -----

  /** With nothing outstanding the lists are the initial ones: every top block, nothing else, and
      every pair bit clear. */
  lemma AllFree(idx: seq<seq<nat>>, bits: seq<seq<bool>>, tops: nat)
    requires Canonical(idx, tops, {}) && BitsAgree(idx, bits)
    ensures forall i: nat :: Listed(idx, TOP, i) <==> i < tops
    ensures forall k: nat, i: nat :: k < TOP ==> !Listed(idx, k, i)
    ensures forall k: nat, t: nat :: 0 < k <= TOP ==> !Bit(bits, k, t)
  {
    forall k: nat, i: nat
      ensures Listed(idx, k, i) <==> k == TOP && i < tops
    {
      assert Free({}, Block(k, i)) && Free({}, Block(k, Buddy(i)));
    }
    forall k: nat, t: nat | 0 < k <= TOP
      ensures !Bit(bits, k, t)
    {
      assert Bit(bits, (k - 1) + 1, t) <==> (Listed(idx, k - 1, 2 * t) != Listed(idx, k - 1, 2 * t + 1));
    }
  }

  /** If no list of order `k` or above has an entry, no block of order `k` is wholly free. */
  lemma EmptyListsMeanFull(idx: seq<seq<nat>>, tops: nat, out: set<Block>, k: nat)
    requires Canonical(idx, tops, out) && k <= TOP
    requires forall j :: k <= j <= TOP ==> idx[j] == []
    ensures forall i: nat :: i < Count(tops, k) ==> !Free(out, Block(k, i))
  {
    forall i: nat | i < Count(tops, k)
      ensures !Free(out, Block(k, i))
    {
      if Free(out, Block(k, i)) {
        var j := FreeReachesCanon(tops, out, k, i);
      }
    }
  }
}
