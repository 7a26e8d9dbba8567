/** The allocator never disturbs memory that a client holds: every cell that the
    source stores to lies outside all live blocks.
  */
module HeapQuiet {
  import opened Words
  import opened Layout
  import opened LinkedLists
  import opened SlabGeometry
  import opened HeapModel
  import opened HeapTheorems
  import opened HeapMemory

  /** All live blocks but the one at `skip` keep their contents. */
  ghost predicate Quiet(h: State, skip: nat, m: Cells, m': Cells) {
    forall a: nat, n: nat, x: nat :: LiveBlock(h, a, n) && a != skip && a <= x < a + n ==> Rd(m', x) == Rd(m, x)
  }

  /** No live block but the one at `skip` meets the n bytes at `at`. */
  ghost predicate Clear(h: State, skip: nat, at: nat, n: nat) {
    forall a: nat, k: nat :: LiveBlock(h, a, k) && a != skip ==> Disjoint(a, k, at, n)
  }

  lemma QuietTrans(h: State, skip: nat, m: Cells, m1: Cells, m2: Cells)
    requires Quiet(h, skip, m, m1) && Quiet(h, skip, m1, m2)
    ensures Quiet(h, skip, m, m2)
  {
    hide LiveBlock;
  }

  lemma QuietRange(h: State, skip: nat, m: Cells, m': Cells, at: nat, n: nat)
    requires Clear(h, skip, at, n) && SameOutside(m, m', at, at + n)
    ensures Quiet(h, skip, m, m')
  {
    hide LiveBlock;
  }

  lemma QuietTwo(h: State, skip: nat, m: Cells, m': Cells, x: nat, y: nat)
    requires Clear(h, skip, x, 16) && Clear(h, skip, y, 16) && OnlyNodes(m, m', [x, y])
    ensures Quiet(h, skip, m, m')
  {
    hide LiveBlock;
    TwoNodes(m, m', x, y);
    hide OnlyNodes;
  }

  lemma QuietThree(h: State, skip: nat, m: Cells, m': Cells, x: nat, y: nat, z: nat)
    requires Clear(h, skip, x, 16) && Clear(h, skip, y, 16) && Clear(h, skip, z, 16)
    requires OnlyNodes(m, m', [x, y, z])
    ensures Quiet(h, skip, m, m')
  {
    hide LiveBlock;
    ThreeNodes(m, m', x, y, z);
    hide OnlyNodes;
  }

  // ---- memory that is clear of live blocks ----

  lemma HeaderClear(h: State, skip: nat, b: nat, at: nat, n: nat)
    requires Inv(h) && b in h.slabs && b <= at && at + n <= b + SIZEOF_SLAB
    ensures Clear(h, skip, at, n)
  {
    hide Inv, LiveBlock;
    forall a: nat, k: nat | LiveBlock(h, a, k) ensures Disjoint(a, k, at, n) {
      LiveAvoidsHeaders(h, a, k, b);
    }
  }

  lemma FreeItemClear(h: State, skip: nat, b: nat, f: nat)
    requires Inv(h) && b in h.slabs && f in h.slabs[b].free
    ensures Clear(h, skip, f, SizeOf(h.slabs[b].cls)) && Clear(h, skip, f, 16)
  {
    hide Inv, LiveBlock;
    MinSize(h.slabs[b].cls);
    hide SizeOf;
    forall a: nat, k: nat | LiveBlock(h, a, k)
      ensures Disjoint(a, k, f, SizeOf(h.slabs[b].cls)) && Disjoint(a, k, f, 16)
    {
      LiveAvoidsFreeItems(h, a, k, b, f);
    }
  }

  lemma LowClear(base: nat, h: State, skip: nat, at: nat, n: nat)
    requires Inv(h) && Above(base, h) && at + n <= base + 64 * SLAB_CACHE_SIZE
    ensures Clear(h, skip, at, n)
  {
    forall a: nat, k: nat | LiveBlock(h, a, k) ensures Disjoint(a, k, at, n) {
      BlockPage(h, a, k);
    }
  }

  lemma ForeignClear(h: State, skip: nat, p: nat)
    requires Inv(h) && PageBase(p) && p !in Pages(h)
    ensures Clear(h, skip, p, PAGE_SIZE) && Clear(h, skip, p, 16)
  {
    forall a: nat, k: nat | LiveBlock(h, a, k) ensures Disjoint(a, k, p, PAGE_SIZE) && Disjoint(a, k, p, 16) {
      BlockPage(h, a, k);
      PagesApart(AlignDown(a, PAGE_SIZE), p);
    }
  }

  /** The skipped block's own first 16 bytes. */
  lemma SkippedClear(h: State, a: nat, n: nat)
    requires Inv(h) && LiveBlock(h, a, n) && 16 <= n
    ensures Clear(h, a, a, 16)
  {
    hide Inv, LiveBlock;
    forall x: nat, k: nat | LiveBlock(h, x, k) && x != a ensures Disjoint(x, k, a, 16) {
      LiveBlocksDisjoint(h, x, k, a, n);
      BlockPage(h, x, k);
    }
  }

  lemma SlabNodeClear(m: Cells, base: nat, h: State, skip: nat, c: nat, n: nat)
    requires Rep(m, base, h) && c < SLAB_CACHE_SIZE && n in Chain(SlabList(base, c), h.lists[c])
    ensures Clear(h, skip, n, 16)
  {
    if n in h.lists[c] {
      SlabNodes(m, base, h, c, n);
      HeaderClear(h, skip, n, n, 16);
    } else {
      LowClear(base, h, skip, n, 16);
    }
  }

  lemma FreeNodeClear(h: State, skip: nat, b: nat, n: nat)
    requires Inv(h) && b in h.slabs && n in Chain(FreeList(b), h.slabs[b].free)
    ensures Clear(h, skip, n, 16)
  {
    if n in h.slabs[b].free {
      FreeItemClear(h, skip, b, n);
    } else {
      HeaderClear(h, skip, b, n, 16);
    }
  }

  // ---- a client's own stores ----

  /** A store inside a live block leaves the heap's representation alone. */
  lemma ClientStore(m: Cells, m': Cells, base: nat, h: State, a: nat, n: nat)
    requires Rep(m, base, h) && LiveBlock(h, a, n) && SameOutside(m, m', a, a + n)
    ensures Rep(m', base, h)
  {
    forall b | b in h.slabs ensures h.slabs[b].cls < SLAB_CACHE_SIZE && SlabRep(m', b, h.slabs[b]) {
      hide Inv, LiveBlock, SlabRep;
      ClientSlab(m, m', base, h, a, n, b);
    }
    forall c: nat | c < SLAB_CACHE_SIZE ensures CacheOk(m', base, h, c) {
      hide LiveBlock, CacheRep;
      ClientCache(m, m', base, h, a, n, c);
    }
  }

  lemma ClientSlab(m: Cells, m': Cells, base: nat, h: State, a: nat, n: nat, b: nat)
    requires Rep(m, base, h) && LiveBlock(h, a, n) && SameOutside(m, m', a, a + n) && b in h.slabs
    ensures h.slabs[b].cls < SLAB_CACHE_SIZE && SlabRep(m', b, h.slabs[b])
  {
    LiveAvoidsHeaders(h, a, n, b);
    assert SlabRep(m, b, h.slabs[b]);
    forall x, y: nat | x in Chain(FreeList(b), h.slabs[b].free) && InNode(y, x) ensures Rd(m', y) == Rd(m, y) {
      FreeNodeClear(h, 0, b, x);
      BlockPage(h, a, n);
      assert a > 0;
    }
    hide Inv, LiveBlock, Rep, IsList, Chain, SizeOf, Total, ItemAt;
    ListFrame(m, m', FreeList(b), h.slabs[b].free);
  }

  lemma ClientCache(m: Cells, m': Cells, base: nat, h: State, a: nat, n: nat, c: nat)
    requires Rep(m, base, h) && LiveBlock(h, a, n) && SameOutside(m, m', a, a + n) && c < SLAB_CACHE_SIZE
    ensures CacheOk(m', base, h, c)
  {
    CacheParts(m, base, h, c);
    assert CacheOk(m, base, h, c);
    hide CacheRep, CacheOk, LiveBlock, SlabsOk, Rep, Inv, Agree, SameOutside;
    LowClear(base, h, 0, CacheAddr(base, c), 64);
    BlockPage(h, a, n);
    OutsideAgree(m, m', a, n, CacheAddr(base, c), 64);
    forall x | x in h.lists[c] ensures Agree(m, m', x, x + 16) {
      SlabNodes(m, base, h, c, x);
      LiveAvoidsHeaders(h, a, n, x);
      OutsideAgree(m, m', a, n, x, 16);
    }
    CacheKeptBy(m, m', base, h, c);
  }

  lemma OutsideAgree(m: Cells, m': Cells, a: nat, n: nat, lo: nat, size: nat)
    requires SameOutside(m, m', a, a + n) && Disjoint(a, n, lo, size)
    ensures Agree(m, m', lo, lo + size)
  {}
}
