/** kmalloc when the virtual pool has no free page and one is needed: page_alloc answers
    page 0, which is in use, and kmalloc goes on as if it were new.
  */
module ExhaustedHeap {
  import opened Words
  import opened Layout
  import opened Bitmaps
  import opened PageManager
  import opened PagerModel
  import opened PagerTheorems
  import opened LinkedLists
  import opened SlabGeometry
  import HM = HeapModel
  import opened HeapTheorems
  import opened HeapMemory
  import opened KernelHeap

  /** A needed page is not to be had. */
  ghost predicate Exhausted(heap: Heap)
    reads heap, heap.ram, heap.pager
    reads heap.pager.virt.bitmap.bytes, heap.pager.core.bitmap.bytes, heap.pager.four.bitmap.bytes
  {
    heap.Valid() && !HasRun(heap.pager.Snapshot().virt, 1)
  }

  /** The page is in use: a live block or a slab header lies in it. */
  ghost predicate UsedPageOf(h: HM.State, base: nat, page: nat) {
    page in HM.Pages(h) && HM.PageBase(page) && Collides(h, page, PAGE_SIZE) && base + 64 * SLAB_CACHE_SIZE <= page
  }

  lemma UsedParts(h: HM.State, base: nat, page: nat)
    requires UsedPageOf(h, base, page)
    ensures page in HM.Pages(h) && Collides(h, page, PAGE_SIZE)
  {}

  lemma FirstPageUsed(heap: Heap)
    requires Exhausted(heap)
    ensures UsedPageOf(heap.st, heap.base, VPage(heap.pager.geo, 0)) && heap.maxSlabSize == 0x10_0000
  {
    hide HasRun, HM.PageBase, HM.Pages, Collides, Rep, VirtPages;
    heap.ValidParts();
    heap.AnsweredPage(0);
  }

  /** page_alloc(KERNEL_2M, 1). Page 0 then shows core page 0, which another page shows too
      unless that was its core page before (`PageAllocWhenFull`). What the pages of the pool
      hold is left open here; memory below the pool is unchanged. */
  method FullPage(heap: Heap) returns (page: nat)
    requires Exhausted(heap)
    modifies heap.ram, heap.pager
    modifies heap.pager.virt.bitmap.bytes, heap.pager.core.bitmap.bytes, heap.pager.four.bitmap.bytes
    ensures page == VPage(heap.pager.geo, 0) && UsedPageOf(heap.st, heap.base, page)
    ensures forall a: nat :: a < page ==> Rd(heap.ram.cells, a) == Rd(old(heap.ram.cells), a)
  {
    hide Inv, HasRun, UsedPageOf, Rep, VirtPages, VPage;
    FirstPageUsed(heap);
    page := heap.pager.PageAllocWhenFull();
    heap.ram.Remap(page, page + 8 * heap.pager.virt.bitmap.bytes.Length * PAGE_SIZE);
  }

  /** The large-block branch of kmalloc. */
  method LargeAllocWhenFull(heap: Heap, pageCnt: nat) returns (addr: nat)
    requires Exhausted(heap) && pageCnt == 1
    modifies heap.ram, heap.pager
    modifies heap.pager.virt.bitmap.bytes, heap.pager.core.bitmap.bytes, heap.pager.four.bitmap.bytes
    ensures addr == VPage(heap.pager.geo, 0) && UsedPageOf(heap.st, heap.base, addr)
    ensures Zero(heap.ram.cells, addr, addr + PAGE_SIZE)
    ensures addr in heap.st.large ==> LiveBlock(heap.st, addr, PAGE_SIZE)
    ensures addr in heap.st.slabs ==> !heap.Valid()
  {
    hide HasRun, Zero, UsedPageOf, Exhausted;
    addr := FullPage(heap);
    heap.ram.Memset(addr, 0, pageCnt * PAGE_SIZE);
    if addr in heap.st.slabs {
      NoSlabLeft(heap.ram.cells, heap.base, heap.st, addr);
    }
  }

  /** A cleared page is no slab any more. */
  lemma NoSlabLeft(m: Cells, base: nat, h: HM.State, b: nat)
    requires b in h.slabs && Zero(m, b, b + PAGE_SIZE)
    ensures !Rep(m, base, h)
  {
    hide Rep;
    if Rep(m, base, h) {
      SlabHasMagic(m, base, h, b);
      assert false;
    }
  }

  lemma SlabHasMagic(m: Cells, base: nat, h: HM.State, b: nat)
    requires Rep(m, base, h) && b in h.slabs
    ensures Rd(m, b + 80) == SLAB_MAGIC
  {
    assert SlabRep(m, b, h.slabs[b]);
  }

  // ---- a class without free items ----

  /** A cache without slabs on its list, and a slab of it as slab_create leaves it. */
  ghost predicate Formatted(m: Cells, base: nat, c: nat, b: nat)
    requires c < SLAB_CACHE_SIZE
  {
    FirstSlabUnlinked(m, m, base, c, b)
  }

  /** slab_create formats a page that is in use. */
  method SlabCreateWhenFull(heap: Heap, slabSize: nat, ghost c: nat) returns (slab: nat)
    requires Exhausted(heap) && c < SLAB_CACHE_SIZE && slabSize == SizeOf(c)
    requires Rd(heap.ram.cells, CacheAddr(heap.base, c)) == SizeOf(c)
    requires IsList(heap.ram.cells, SlabList(heap.base, c), [])
    modifies heap.ram, heap.pager
    modifies heap.pager.virt.bitmap.bytes, heap.pager.core.bitmap.bytes, heap.pager.four.bitmap.bytes
    ensures slab == VPage(heap.pager.geo, 0) && UsedPageOf(heap.st, heap.base, slab)
    ensures Formatted(heap.ram.cells, heap.base, c, slab)
  {
    ghost var m0 := heap.ram.cells;
    hide HasRun, Exhausted, Collides, HM.Pages, SizeOf, IsList, HM.PageBase, Formatted, SlabRep, InPage, NewSlab;
    slab := FullPage(heap);
    ghost var m1 := heap.ram.cells;
    heap.FormatSlab(slab, slabSize, c);
    FormattedPage(m0, m1, heap.ram.cells, heap.base, c, slab);
  }

  lemma FormattedPage(m0: Cells, m1: Cells, m2: Cells, base: nat, c: nat, b: nat)
    requires c < SLAB_CACHE_SIZE && base + 64 * SLAB_CACHE_SIZE <= b
    requires Rd(m0, CacheAddr(base, c)) == SizeOf(c) && IsList(m0, SlabList(base, c), [])
    requires forall a: nat :: a < b ==> Rd(m1, a) == Rd(m0, a)
    requires InPage(m1, m2, b) && SlabRep(m2, b, NewSlab(b, c))
    ensures Formatted(m2, base, c, b)
  {
    hide SlabRep, SizeOf, IsList, NewSlab;
    forall n, a: nat | n in Chain(SlabList(base, c), []) && InNode(a, n) ensures Rd(m2, a) == Rd(m0, a) {}
    hide Chain;
    ListFrame(m0, m2, SlabList(base, c), []);
  }

  /** The cache's list holds just the slab, whose header is in place. */
  ghost predicate OnList(m: Cells, base: nat, c: nat, b: nat)
    requires c < SLAB_CACHE_SIZE
  {
    Rd(m, CacheAddr(base, c)) == SizeOf(c) && IsList(m, SlabList(base, c), [b]) && Header(m, b, c)
  }

  /** list_push of the slab and the cache's counters. */
  method PushNewSlab(heap: Heap, c: nat, slab: nat)
    requires c < SLAB_CACHE_SIZE && HM.PageBase(slab) && heap.base + 64 * SLAB_CACHE_SIZE <= slab
    requires Formatted(heap.ram.cells, heap.base, c, slab)
    modifies heap.ram
    ensures OnList(heap.ram.cells, heap.base, c, slab) && SlabRep(heap.ram.cells, slab, NewSlab(slab, c))
  {
    ghost var m2 := heap.ram.cells;
    hide IsList, OnlyNodes, SlabRep, SizeOf, FreshNode, Chain, HM.PageBase, NewSlab, FirstSlabUnlinked, OnList, Counted;
    FirstSlabFresh(m2, m2, heap.base, c, slab);
    heap.ram.ListPush(SlabList(heap.base, c), slab, []);
    ghost var m3 := heap.ram.cells;
    FirstSlabCount(m2, m2, m3, heap.base, c, slab);
    heap.AddCounters(CacheAddr(heap.base, c), slab, Total(Exp(c)));
    PushedNew(m2, m3, heap.base, c, slab);
  }

  lemma PushedNew(m2: Cells, m3: Cells, base: nat, c: nat, b: nat)
    requires c < SLAB_CACHE_SIZE && HM.PageBase(b) && base + 64 * SLAB_CACHE_SIZE <= b && Formatted(m2, base, c, b)
    requires IsList(m3, SlabList(base, c), [b] + [])
    requires forall a: nat :: !InNode(a, SlabList(base, c)) && !InNode(a, b) && !InNode(a, TailOf(SlabList(base, c)))
                              ==> Rd(m3, a) == Rd(m2, a)
    ensures var m4 := Counted(m3, CacheAddr(base, c), Total(Exp(c)));
            OnList(m4, base, c, b) && SlabRep(m4, b, NewSlab(b, c))
  {
    var m4 := Counted(m3, CacheAddr(base, c), Total(Exp(c)));
    assert SameOutside(m3, m4, CacheAddr(base, c) + 4, CacheAddr(base, c) + 16);
    assert [b] + [] == [b];
    NewSlabOk(b, c);
    hide IsList, SlabRep, SizeOf, Total, Counted, NewSlab, HM.SlabOk;
    SlabFrame(m2, m4, b, NewSlab(b, c));
    CountersKeepList(m3, m4, base, c, [b]);
    NewHeader(m4, b, c);
  }

  lemma NewHeader(m: Cells, b: nat, c: nat)
    requires c < SLAB_CACHE_SIZE && SlabRep(m, b, NewSlab(b, c))
    ensures Header(m, b, c) && Rd(m, b + 24) == Total(Exp(c)) && IsList(m, FreeList(b), NewSlab(b, c).free)
  {
    hide IsList, Header, Total;
  }

  /** The rest of slab_alloc: the first item of the slab. */
  method TakeNewItem(heap: Heap, c: nat, ghost b: nat) returns (addr: nat)
    requires c < SLAB_CACHE_SIZE && HM.PageBase(b) && heap.base + 64 * SLAB_CACHE_SIZE <= b
    requires OnList(heap.ram.cells, heap.base, c, b) && SlabRep(heap.ram.cells, b, NewSlab(b, c))
    modifies heap.ram
    ensures addr == ItemAt(b, Exp(c), 0) && Zero(heap.ram.cells, addr, addr + SizeOf(c))
    ensures Header(heap.ram.cells, b, c)
  {
    ghost var m4 := heap.ram.cells;
    var ca := CacheAddr(heap.base, c);
    hide IsList, OnlyNodes, SlabRep, SizeOf, Header, Zero, HM.PageBase, And, GetSlabItem, Total, ItemAt, Chain,
         HM.Items, HM.SlabOk, NewSlab, CountedDown, SlabList, CacheAddr;
    ghost var items := NewSlab(b, c).free;
    NewHeader(m4, b, c);
    FirstOfNew(b, c);
    HeadNext(m4, SlabList(heap.base, c), [b]);
    PageOfAddress(b, b) by { assert HM.PageBase(b); }
    var head := heap.ram.Load(SlabList(heap.base, c) + 8);
    var slab := And(head, SLAB_MASK);
    var item := heap.ram.ListPop(FreeList(slab), items);
    ghost var m5 := heap.ram.cells;
    NewPopped(m4, m5, heap.base, c, b);
    addr := heap.ClearItem(ca, item, b, c);
    ghost var m6 := heap.ram.cells;
    NewCleared(m4, m5, m6, heap.base, c, b);
    heap.SubCounters(ca, slab);
    NewCounted(m4, m6, heap.base, c, b);
    var v := heap.ram.Load(slab + 24);
    if v == 0 {
      ghost var m7 := heap.ram.cells;
      var first := heap.ram.ListPop(SlabList(heap.base, c), [b]);
      NewUnlisted(m7, heap.ram.cells, heap.base, c, b);
    }
  }

  lemma FirstOfNew(b: nat, c: nat)
    requires c < SLAB_CACHE_SIZE && HM.PageBase(b)
    ensures var items := NewSlab(b, c).free;
            items != [] && items[0] == ItemAt(b, Exp(c), 0) && items[0] in HM.Items(b, c)
    ensures b % PAGE_SIZE == 0 && b + PAGE_SIZE <= WORD_LIMIT
  {
    hide Total, ItemAt;
    assert HM.ItemSeq(b, c, Total(Exp(c)))[0] == ItemAt(b, Exp(c), 0);
  }

  lemma NewPopped(m4: Cells, m5: Cells, base: nat, c: nat, b: nat)
    requires c < SLAB_CACHE_SIZE && HM.PageBase(b) && base + 64 * SLAB_CACHE_SIZE <= b
    requires OnList(m4, base, c, b) && SlabRep(m4, b, NewSlab(b, c)) && NewSlab(b, c).free != []
    requires OnlyNodes(m4, m5, [FreeList(b), Chain(FreeList(b), NewSlab(b, c).free)[2]])
    ensures Rd(m5, CacheAddr(base, c)) == SizeOf(c)
  {
    NewSlabOk(b, c);
    hide IsList, OnlyNodes, SlabRep, SizeOf, Header, Total, ItemAt, Chain, HM.SlabOk, NewSlab;
    PoppedCells(m4, m5, m5, b, NewSlab(b, c));
  }

  lemma NewCleared(m4: Cells, m5: Cells, m6: Cells, base: nat, c: nat, b: nat)
    requires c < SLAB_CACHE_SIZE && HM.PageBase(b) && SlabRep(m4, b, NewSlab(b, c)) && NewSlab(b, c).free != []
    requires OnlyNodes(m4, m5, [FreeList(b), Chain(FreeList(b), NewSlab(b, c).free)[2]])
    requires var item := NewSlab(b, c).free[0];
             SameOutside(m5, m6, item, item + SizeOf(c))
    ensures SameOutside(m4, m6, b + 32, b + PAGE_SIZE) && Header(m6, b, c)
    ensures Rd(m6, b + 24) == |NewSlab(b, c).free|
  {
    NewSlabOk(b, c);
    hide IsList, OnlyNodes, SlabRep, SizeOf, Header, Total, ItemAt, Chain, HM.SlabOk, NewSlab, SameOutside;
    PoppedCells(m4, m5, m6, b, NewSlab(b, c));
  }

  lemma NewCounted(m4: Cells, m6: Cells, base: nat, c: nat, b: nat)
    requires c < SLAB_CACHE_SIZE && HM.PageBase(b) && base + 64 * SLAB_CACHE_SIZE <= b
    requires OnList(m4, base, c, b) && SameOutside(m4, m6, b + 32, b + PAGE_SIZE) && Header(m6, b, c)
    requires var a := ItemAt(b, Exp(c), 0);
             a in HM.Items(b, c) && Zero(m6, a, a + SizeOf(c))
    ensures var m7 := CountedDown(m6, CacheAddr(base, c), b);
            var a := ItemAt(b, Exp(c), 0);
            IsList(m7, SlabList(base, c), [b]) && Header(m7, b, c) && Zero(m7, a, a + SizeOf(c))
  {
    var m7 := CountedDown(m6, CacheAddr(base, c), b);
    var a := ItemAt(b, Exp(c), 0);
    FreeItemInPage(b, c, a);
    hide IsList, SizeOf, Total, ItemAt, HM.Items, HM.PageBase;
    assert forall x: nat :: x != CacheAddr(base, c) + 8 && x != b + 24 ==> Rd(m7, x) == Rd(m6, x);
    hide CountedDown;
    CacheListKept(m4, m7, base, c, b, [b]);
  }

  /** list_pop of the cache's only slab writes the two sentinels of its list. */
  lemma NewUnlisted(m7: Cells, m8: Cells, base: nat, c: nat, b: nat)
    requires c < SLAB_CACHE_SIZE && HM.PageBase(b) && base + 64 * SLAB_CACHE_SIZE <= b && Header(m7, b, c)
    requires OnlyNodes(m7, m8, [SlabList(base, c), Chain(SlabList(base, c), [b])[2]])
    requires var a := ItemAt(b, Exp(c), 0);
             a in HM.Items(b, c) && Zero(m7, a, a + SizeOf(c))
    ensures var a := ItemAt(b, Exp(c), 0);
            Header(m8, b, c) && Zero(m8, a, a + SizeOf(c))
  {
    var a := ItemAt(b, Exp(c), 0);
    FreeItemInPage(b, c, a);
    assert Chain(SlabList(base, c), [b])[2] == TailOf(SlabList(base, c));
    hide SizeOf, Total, ItemAt, HM.Items, HM.PageBase, Chain;
    TwoNodes(m7, m8, SlabList(base, c), TailOf(SlabList(base, c)));
    hide OnlyNodes;
  }

  /** slab_alloc of a cache without free items. */
  method SlabAllocWhenFull(heap: Heap, c: nat) returns (addr: nat, ghost page: nat)
    requires Exhausted(heap) && c < SLAB_CACHE_SIZE && heap.st.lists[c] == []
    modifies heap.ram, heap.pager
    modifies heap.pager.virt.bitmap.bytes, heap.pager.core.bitmap.bytes, heap.pager.four.bitmap.bytes
    ensures page == VPage(heap.pager.geo, 0) && UsedPageOf(heap.st, heap.base, page)
    ensures addr == ItemAt(page, Exp(c), 0) && Zero(heap.ram.cells, addr, addr + SizeOf(c))
    ensures Header(heap.ram.cells, page, c)
  {
    ghost var m0 := heap.ram.cells;
    hide Rep, HasRun, Zero, Header, SizeOf, ItemAt, HM.Pages, HM.PageBase, Collides, Formatted, OnList, SlabRep, IsList,
         CacheOk;
    heap.ValidParts();
    hide Exhausted, Heap.Valid;
    CacheListOf(m0, heap.base, heap.st, c);
    CacheFields(m0, heap.base, heap.st, c);
    var empty := heap.ram.ListEmpty(SlabList(heap.base, c), []);
    assert empty;
    var size := heap.ram.Load(CacheAddr(heap.base, c));
    var slab := SlabCreateWhenFull(heap, size, c);
    page := slab;
    PushNewSlab(heap, c, slab);
    addr := TakeNewItem(heap, c, page);
  }

  /** The small-block branch of kmalloc. */
  method SmallAllocWhenFull(heap: Heap, size: nat) returns (addr: nat, ghost page: nat)
    requires Exhausted(heap) && size <= MAX_SLAB_SIZE && NeedsPage(heap.st, size)
    modifies heap.ram, heap.pager
    modifies heap.pager.virt.bitmap.bytes, heap.pager.core.bitmap.bytes, heap.pager.four.bitmap.bytes
    ensures page == VPage(heap.pager.geo, 0)
    ensures page <= addr && addr + BlockSize(size) <= page + PAGE_SIZE
    ensures Zero(heap.ram.cells, addr, addr + BlockSize(size))
    ensures addr == ItemAt(page, Exp(ClassOf(size)), 0) && Header(heap.ram.cells, page, ClassOf(size))
  {
    hide HasRun, Zero, UsedPageOf, Exhausted, Header, SizeOf, ItemAt, NeedsPage, BlockSize, ClassOf, VPage, Exp;
    var i := CacheWhenFull(heap, size);
    addr, page := SlabAllocWhenFull(heap, i);
    FirstBlock(heap.ram.cells, page, i, size);
  }

  method CacheWhenFull(heap: Heap, size: nat) returns (i: nat)
    requires Exhausted(heap) && size <= MAX_SLAB_SIZE && NeedsPage(heap.st, size)
    ensures i == ClassOf(size) < SLAB_CACHE_SIZE && heap.st.lists[i] == []
  {
    hide HasRun, SizeOf, Rep, BlockSize, NeedsPage, ClassOf, LeastClass;
    heap.ValidParts();
    RepCaches(heap.ram.cells, heap.base, heap.st);
    hide Exhausted, Heap.Valid;
    SmallSize(heap.st, size);
    SizeValues();
    i := heap.FindCache(size);
    SameClass(size, i);
  }

  /** kmalloc when a page is needed and the virtual pool has none: the block that it answers
      lies in page 0, which meets a live block or a slab header. A large block is a live
      block handed out again, or destroys a slab; a small one lies behind a new slab header
      that is stored into that page. */
  method KmallocWhenFull(heap: Heap, size: nat) returns (addr: nat, ghost page: nat)
    requires Exhausted(heap) && size <= PAGE_SIZE && NeedsPage(heap.st, size)
    modifies heap.ram, heap.pager
    modifies heap.pager.virt.bitmap.bytes, heap.pager.core.bitmap.bytes, heap.pager.four.bitmap.bytes
    ensures page == VPage(heap.pager.geo, 0) && page in HM.Pages(heap.st) && Collides(heap.st, page, PAGE_SIZE)
    ensures page <= addr && addr + BlockSize(size) <= page + PAGE_SIZE
    ensures Zero(heap.ram.cells, addr, addr + BlockSize(size))
    ensures size > MAX_SLAB_SIZE ==>
              addr == page && (page in heap.st.large ==> LiveBlock(heap.st, addr, PAGE_SIZE))
              && (page in heap.st.slabs ==> !heap.Valid())
    ensures size <= MAX_SLAB_SIZE ==>
              addr == ItemAt(page, Exp(ClassOf(size)), 0) && Header(heap.ram.cells, page, ClassOf(size))
  {
    hide HasRun, Zero, UsedPageOf, SizeOf, ItemAt, Header, Rep, LiveBlock, Exhausted, Heap.Valid, Collides, HM.Pages,
         BlockSize, ClassOf, NeedsPage, VPage;
    FirstPageUsed(heap);
    UsedParts(heap.st, heap.base, VPage(heap.pager.geo, 0));
    if size > heap.maxSlabSize {
      var pageCnt := (size + PAGE_SIZE - 1) / PAGE_SIZE;
      OnePage(size);
      LargeSize(size);
      addr := LargeAllocWhenFull(heap, pageCnt);
      page := addr;
    } else {
      addr, page := SmallAllocWhenFull(heap, size);
    }
  }

  lemma LargeSize(size: nat)
    requires MAX_SLAB_SIZE < size <= PAGE_SIZE
    ensures BlockSize(size) == PAGE_SIZE
  {}

  lemma SmallSize(h: HM.State, size: nat)
    requires size <= MAX_SLAB_SIZE && |h.lists| == SLAB_CACHE_SIZE
    ensures BlockSize(size) == SizeOf(ClassOf(size)) && ClassOf(size) < SLAB_CACHE_SIZE
    ensures NeedsPage(h, size) <==> h.lists[ClassOf(size)] == []
  {
    hide SizeOf;
  }

  lemma FirstBlock(m: Cells, b: nat, c: nat, size: nat)
    requires size <= MAX_SLAB_SIZE && c < SLAB_CACHE_SIZE && c == ClassOf(size)
    requires var a := ItemAt(b, Exp(c), 0);
             Zero(m, a, a + SizeOf(c))
    ensures var a := ItemAt(b, Exp(ClassOf(size)), 0);
            b <= a && a + BlockSize(size) <= b + PAGE_SIZE && Zero(m, a, a + BlockSize(size))
  {
    hide Zero, ItemAt;
    ItemInside(b, Exp(c), 0);
  }
}
