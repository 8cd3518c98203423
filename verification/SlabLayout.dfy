/** Layout arithmetic of the slab allocator (kernel/mm/slab.c): how many objects, each followed by
    its 8-byte control word, and how much waste a page block holds with the 16-byte slab structure
    at the end, and the search for the order with the least waste. */
module SlabLayout {
  import opened Arithmetic
  import opened Lists
  import opened PageSizes

  const SLAB_MAX_ORDER: nat := 5
  const BUFCTL: nat := 8
  const HEADER: nat := 16
  const REDZONE: nat := 4

  function SlabSize(objsize: nat, nobjs: nat): nat {
    nobjs * (objsize + BUFCTL) + HEADER
  }

  function SlabNobjs(objsize: nat, order: nat): nat
    requires Size(order) >= HEADER
  {
    (Size(order) - HEADER) / (objsize + BUFCTL)
  }

  lemma BlockGrows(k: nat, order: nat)
    requires k <= order
    ensures PAGE_SIZE <= Size(k) <= Size(order)
  {
    Pow2Positive(k);
    Pow2Mono(k, order);
  }

  /** The count is the largest that fits. */
  lemma NobjsExact(objsize: nat, order: nat, n: nat)
    ensures Size(order) >= HEADER
    ensures SlabSize(objsize, n) <= Size(order) <==> n <= SlabNobjs(objsize, order)
  {
    hide Size;
    BlockGrows(0, order);
    DivFits(Size(order) - HEADER, objsize + BUFCTL, n);
  }

  /** What is left over in the block. */
  function SlabWaste(objsize: nat, order: nat): (w: nat)
  {
    BlockGrows(0, order);
    NobjsExact(objsize, order, SlabNobjs(objsize, order));
    Size(order) - SlabSize(objsize, SlabNobjs(objsize, order))
  }

  /** Less than one more object with its control word. */
  lemma WasteSmall(objsize: nat, order: nat)
    ensures SlabWaste(objsize, order) < objsize + BUFCTL
  {
    hide Size;
    BlockGrows(0, order);
    var a, d := Size(order) - HEADER, objsize + BUFCTL;
    assert a == a / d * d + a % d;
  }

  /** `order` is the first among `lo` to `hi` with the least waste. */
  ghost predicate LeastWaste(objsize: nat, lo: nat, hi: nat, order: nat) {
    && lo <= order < hi
    && (forall k :: lo <= k < hi ==> SlabWaste(objsize, order) <= SlabWaste(objsize, k))
    && (forall k :: lo <= k < order ==> SlabWaste(objsize, order) < SlabWaste(objsize, k))
  }

  /** `_calc_slab_size`: the orders searched begin with the smallest block that holds one object; a
      panic, None, exactly when no block does. */
  method CalcSlabSize(objsize: nat) returns (r: Option<(nat, nat)>, ghost minorder: nat)
    ensures r.None? <==> forall k :: 0 <= k < PAGE_NSIZES ==> Size(k) < SlabSize(objsize, 1)
    ensures r.Some? ==>
              && minorder < PAGE_NSIZES && Size(minorder) >= SlabSize(objsize, 1)
              && (forall k :: 0 <= k < minorder ==> Size(k) < SlabSize(objsize, 1))
              && LeastWaste(objsize, minorder, Max(minorder + 1, SLAB_MAX_ORDER), r.value.0)
    ensures r.Some? ==>
              r.value.1 >= 1 && SlabSize(objsize, r.value.1) <= Size(r.value.0) < SlabSize(objsize, r.value.1 + 1)
  {
    hide Size, SlabWaste;
    var minsize := SlabSize(objsize, 1);
    var m := 0;
    while m < PAGE_NSIZES && Size(m) < minsize
      invariant 0 <= m <= PAGE_NSIZES
      invariant forall k :: 0 <= k < m ==> Size(k) < minsize
    {
      m := m + 1;
    }
    if m == PAGE_NSIZES {
      return None, m;
    }
    var best, waste, order := m, SlabWaste(objsize, m), m + 1;
    while order < SLAB_MAX_ORDER
      invariant m + 1 <= order <= Max(m + 1, SLAB_MAX_ORDER)
      invariant waste == SlabWaste(objsize, best) && LeastWaste(objsize, m, order, best)
    {
      var w := SlabWaste(objsize, order);
      if w < waste {
        waste := w;
        best := order;
      }
      order := order + 1;
    }
    BlockGrows(m, best);
    BlockGrows(0, best);
    NobjsExact(objsize, best, 1);
    var n := SlabNobjs(objsize, best);
    NobjsExact(objsize, best, n);
    NobjsExact(objsize, best, n + 1);
    return Some((best, n)), m;
  }

  // ----- where things are in a slab -----

  /** Object `i` of the slab at `addr`; its control word follows it. */
  function Obj(addr: nat, objsize: nat, i: nat): nat {
    addr + i * (objsize + BUFCTL)
  }

  /** The objects and control words before the slab structure, all inside the block. */
  lemma Inside(addr: nat, objsize: nat, nobjs: nat, order: nat, i: nat)
    requires i < nobjs && SlabSize(objsize, nobjs) <= Size(order)
    ensures addr <= Obj(addr, objsize, i)
    ensures Obj(addr, objsize, i) + objsize + BUFCTL <= Obj(addr, objsize, nobjs)
    ensures Obj(addr, objsize, nobjs) + HEADER <= addr + Size(order)
  {
    hide Size;
    MulMono(i + 1, nobjs, objsize + BUFCTL);
    assert (i + 1) * (objsize + BUFCTL) == i * (objsize + BUFCTL) + objsize + BUFCTL;
  }

  /** No object or control word reaches into the next. */
  lemma Disjoint(addr: nat, objsize: nat, i: nat, j: nat)
    requires i < j
    ensures Obj(addr, objsize, i) + objsize + BUFCTL <= Obj(addr, objsize, j)
  {
    MulMono(i + 1, j, objsize + BUFCTL);
    assert (i + 1) * (objsize + BUFCTL) == i * (objsize + BUFCTL) + objsize + BUFCTL;
  }
}
