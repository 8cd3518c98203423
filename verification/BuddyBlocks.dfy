/** Binary-buddy blocks, apart from any address: block `i` of order `k` covers the pages `x` with
    `x >> k == i`.  A set of outstanding blocks determines which blocks a buddy allocator must
    have on its free lists; this module defines that set (`Canon`) and proves how it changes when
    one block is taken or given back. */
module BuddyBlocks {
  import opened PageSizes

  datatype Block = Block(order: nat, index: nat)

  /** `i` shifted right by `d`. */
  function Up(i: nat, d: nat): nat {
    if d == 0 then i else Up(i / 2, d - 1)
  }

  function Buddy(i: nat): nat {
    if i % 2 == 0 then i + 1 else i - 1
  }

  /** The number of blocks of order `k` in a group of `tops` blocks of the top order. */
  function Count(tops: nat, k: nat): nat
    requires k <= TOP
    decreases TOP - k
  {
    if k == TOP then tops else 2 * Count(tops, k + 1)
  }

  /** Two blocks share a page. */
  predicate Overlap(a: Block, b: Block) {
    if a.order <= b.order then Up(a.index, b.order - a.order) == b.index
    else Up(b.index, a.order - b.order) == a.index
  }

  /** No outstanding block shares a page with `b`: it is wholly free. */
  ghost predicate Free(out: set<Block>, b: Block) {
    forall o :: o in out ==> !Overlap(o, b)
  }

  /** The blocks a buddy allocator keeps on its lists: wholly free, and not joinable. */
  ghost predicate Canon(tops: nat, out: set<Block>, k: nat, i: nat) {
    && k <= TOP && i < Count(tops, k)
    && Free(out, Block(k, i))
    && (k < TOP ==> !Free(out, Block(k, Buddy(i))))
  }

  // ----- index arithmetic -----

  lemma {:induction false} UpUp(i: nat, d: nat, e: nat)
    ensures Up(Up(i, d), e) == Up(i, d + e)
  {
    if d > 0 {
      UpUp(i / 2, d - 1, e);
    }
  }

  lemma UpStep(i: nat, d: nat)
    ensures Up(i, d + 1) == Up(i, d) / 2
  {
    UpUp(i, d, 1);
    assert Up(Up(i, d), 1) == Up(Up(i, d) / 2, 0);
  }

  lemma UpBuddy(i: nat, d: nat)
    requires 0 < d
    ensures Up(Buddy(i), d) == Up(i, d)
  {
    assert Buddy(i) / 2 == i / 2;
  }

  lemma BuddyInRange(tops: nat, k: nat, i: nat)
    requires k < TOP && i < Count(tops, k)
    ensures Buddy(i) < Count(tops, k) && i / 2 < Count(tops, k + 1)
    ensures Buddy(Buddy(i)) == i != Buddy(i)
    ensures (i == 2 * (i / 2) && Buddy(i) == i + 1) || (i == 2 * (i / 2) + 1 && Buddy(i) == i - 1)
  {
  }

  // ----- overlap -----

  lemma OverlapSameOrder(k: nat, i: nat, j: nat)
    ensures Overlap(Block(k, i), Block(k, j)) <==> i == j
  {
  }

  lemma OverlapSymmetric(a: Block, b: Block)
    ensures Overlap(a, b) <==> Overlap(b, a)
  {
  }

  /** A block that meets a part of a larger block meets the larger block. */
  lemma OverlapUp(o: Block, j: nat, r: nat, k: nat)
    requires j <= k && Overlap(o, Block(j, r))
    ensures Overlap(o, Block(k, Up(r, k - j)))
  {
    if o.order <= j {
      UpUp(o.index, j - o.order, k - j);
    } else if o.order <= k {
      UpUp(r, o.order - j, k - o.order);
    } else {
      UpUp(r, k - j, o.order - k);
    }
  }

  /** A block meets a larger one exactly when it meets one of its halves. */
  lemma OverlapHalves(k: nat, i: nat, b: Block)
    ensures Overlap(Block(k + 1, i), b)
       <==> Overlap(Block(k, 2 * i), b) || Overlap(Block(k, 2 * i + 1), b)
  {
    if b.order <= k {
      UpStep(b.index, k - b.order);
    } else {
      assert Up(2 * i, b.order - k) == Up((2 * i) / 2, b.order - k - 1);
      assert Up(2 * i + 1, b.order - k) == Up((2 * i + 1) / 2, b.order - k - 1);
    }
  }

  lemma FreeInside(out: set<Block>, k: nat, j: nat, r: nat)
    requires j <= k && Free(out, Block(k, Up(r, k - j)))
    ensures Free(out, Block(j, r))
  {
    forall o | o in out
      ensures !Overlap(o, Block(j, r))
    {
      if Overlap(o, Block(j, r)) { OverlapUp(o, j, r, k); }
    }
  }

  lemma FreeHalves(out: set<Block>, k: nat, i: nat)
    ensures Free(out, Block(k + 1, i)) <==> Free(out, Block(k, 2 * i)) && Free(out, Block(k, 2 * i + 1))
  {
    forall o | o in out
      ensures Overlap(o, Block(k + 1, i))
         <==> Overlap(o, Block(k, 2 * i)) || Overlap(o, Block(k, 2 * i + 1))
    {
      OverlapHalves(k, i, o);
      OverlapSymmetric(o, Block(k + 1, i));
      OverlapSymmetric(o, Block(k, 2 * i));
      OverlapSymmetric(o, Block(k, 2 * i + 1));
    }
  }

  // ----- taking a canonical block -----

  /** A free block inside a free block is not canonical: its buddy is free as well. */
  lemma CanonNotInside(tops: nat, out: set<Block>, j: nat, r: nat, k: nat)
    requires j < k <= TOP && Canon(tops, out, j, r)
    ensures !Free(out, Block(k, Up(r, k - j)))
  {
    if Free(out, Block(k, Up(r, k - j))) {
      UpBuddy(r, k - j);
      FreeInside(out, k, j, Buddy(r));
    }
  }

  /** Two different canonical blocks do not overlap. */
  lemma CanonDisjoint(tops: nat, out: set<Block>, k: nat, i: nat, j: nat, r: nat)
    requires Canon(tops, out, k, i) && Canon(tops, out, j, r) && Block(k, i) != Block(j, r)
    ensures !Overlap(Block(k, i), Block(j, r))
  {
    hide Up, Free, Count;
    if k < j {
      CanonNotInside(tops, out, k, i, j);
    } else if j < k {
      CanonNotInside(tops, out, j, r, k);
    } else {
      OverlapSameOrder(k, i, r);
    }
  }

  /** Once a canonical block is outstanding, no block next to one still free loses its place. */
  lemma CanonKept(tops: nat, out: set<Block>, k: nat, i: nat, j: nat, r: nat)
    requires Canon(tops, out, k, i) && j < TOP
    requires Free(out, Block(j, r)) && Free(out, Block(j, Buddy(r)))
    ensures Overlap(Block(k, i), Block(j, Buddy(r))) ==> Overlap(Block(k, i), Block(j, r))
  {
    if j < k {
      UpBuddy(r, k - j);
    } else if k < j {
      CanonNotInside(tops, out, k, i, j);
    }
  }

  /** Taking a canonical block removes that block from the canonical ones and nothing else. */
  lemma TakeCanon(tops: nat, out: set<Block>, k: nat, i: nat, j: nat, r: nat)
    requires Canon(tops, out, k, i)
    ensures Canon(tops, out + {Block(k, i)}, j, r)
       <==> Canon(tops, out, j, r) && Block(j, r) != Block(k, i)
  {
    var out' := out + {Block(k, i)};
    FreeAdd(out, Block(k, i), Block(j, r));
    FreeAdd(out, Block(k, i), Block(j, Buddy(r)));
    if Canon(tops, out', j, r) && j < TOP && Free(out, Block(j, Buddy(r))) {
      CanonKept(tops, out, k, i, j, r);
    }
    if Canon(tops, out, j, r) && Block(j, r) != Block(k, i) {
      CanonDisjoint(tops, out, k, i, j, r);
    }
  }

  lemma FreeAdd(out: set<Block>, a: Block, b: Block)
    ensures Free(out + {a}, b) <==> Free(out, b) && !Overlap(a, b)
  {
  }

  /** Two buddies outstanding are as good as their union outstanding. */
  lemma JoinOutstanding(tops: nat, out: set<Block>, k: nat, i: nat, j: nat, r: nat)
    ensures Canon(tops, out + {Block(k, 2 * i)} + {Block(k, 2 * i + 1)}, j, r)
       <==> Canon(tops, out + {Block(k + 1, i)}, j, r)
  {
    JoinFree(out, k, i, Block(j, r));
    JoinFree(out, k, i, Block(j, Buddy(r)));
  }

  lemma JoinFree(out: set<Block>, k: nat, i: nat, b: Block)
    ensures Free(out + {Block(k, 2 * i)} + {Block(k, 2 * i + 1)}, b)
       <==> Free(out + {Block(k + 1, i)}, b)
  {
    OverlapHalves(k, i, b);
    FreeAdd(out, Block(k + 1, i), b);
    FreeAdd(out, Block(k, 2 * i), b);
    FreeAdd(out + {Block(k, 2 * i)}, Block(k, 2 * i + 1), b);
  }

  /** Every wholly free block lies in a canonical block of its own order or above. */
  lemma {:induction false} FreeReachesCanon(tops: nat, out: set<Block>, k: nat, i: nat) returns (j: nat)
    requires k <= TOP && i < Count(tops, k) && Free(out, Block(k, i))
    ensures k <= j <= TOP && Canon(tops, out, j, Up(i, j - k))
    decreases TOP - k
  {
    if k == TOP || !Free(out, Block(k, Buddy(i))) {
      j := k;
    } else {
      FreeHalves(out, k, i / 2);
      j := FreeReachesCanon(tops, out, k + 1, i / 2);
    }
  }
}
