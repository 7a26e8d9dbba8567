/** kernel/memory/slab.c and kmalloc/kfree of kernel/memory/memory.c, as stores to
    memory that implement the steps of `HeapModel`.
  */
module KernelHeap {
  import opened Words
  import opened Layout
  import opened Bitmaps
  import opened PageManager
  import opened PagerModel
  import opened LinkedLists
  import opened SlabGeometry
  import HM = HeapModel
  import opened HeapTheorems
  import opened HeapMemory
  import opened HeapTotals
  import opened HeapQuiet
  import Boot
  import PageTables

  /** The base addresses of the allocated virtual pages. */
  ghost function VirtPages(g: Geo, s: View): set<nat> {
    set i: nat | i in Ones(s.virt) :: VPage(g, i)
  }

  ghost predicate InPage(m: Cells, m': Cells, b: nat) {
    SameOutside(m, m', b, b + PAGE_SIZE)
  }

  /** The page at b is the first free one of the virtual pool, and now in use. */
  ghost predicate TookPage(g: Geo, s: View, s': View, b: nat) {
    exists i: nat :: FirstRun(s.virt, i, 1) && s'.virt == SetRange(s.virt, i, 1, true) && b == VPage(g, i)
  }

  /** n addresses, `size` apart, from `start` on. */
  predicate EvenlySpaced(s: seq<nat>, start: nat, size: nat, n: nat) {
    |s| == n && forall i :: 0 <= i < n ==> s[i] == start + i * size
  }

  /** A slab in numbers: the items start as early as the header allows, fill the page, and
      are all on the free list, in address order. */
  ghost predicate LaidOut(m: Cells, b: nat, size: nat, items: seq<nat>)
    requires size > 0
  {
    Rd(m, b + 16) == size && Rd(m, b + 80) == 0x48_5848_0426
    && FirstBehindHeader(b, size, Rd(m, b + 64)) && Rd(m, b + 72) == b + 0x20_0000
    && Rd(m, b + 20) == |items| && Rd(m, b + 24) == |items|
    && Rd(m, b + 64) + |items| * size == b + 0x20_0000
    && IsList(m, b + 32, items) && EvenlySpaced(items, Rd(m, b + 64), size, |items|)
  }

  class Heap {
    const ram: Ram
    const pager: Pager
    const base: nat
    var maxSlabSize: nat
    ghost var st: HM.State

    ghost predicate Valid()
      reads this, ram, pager, pager.virt.bitmap.bytes, pager.core.bitmap.bytes, pager.four.bitmap.bytes
    {
      pager.Valid() && Rep(ram.cells, base, st)
      && HM.Pages(st) == VirtPages(pager.geo, pager.Snapshot())
      && base + 64 * SLAB_CACHE_SIZE <= pager.geo.virtStart && 0 < pager.geo.pages
      && maxSlabSize == 0x10_0000
    }

    lemma ValidParts()
      requires Valid()
      ensures pager.Valid() && Rep(ram.cells, base, st)
      ensures HM.Pages(st) == VirtPages(pager.geo, pager.Snapshot())
      ensures base + 64 * SLAB_CACHE_SIZE <= pager.geo.virtStart && 0 < pager.geo.pages
      ensures maxSlabSize == 0x10_0000
    {}

    lemma ValidFrom(pages: set<nat>)
      requires pager.Valid() && Rep(ram.cells, base, st)
      requires HM.Pages(st) == pages == VirtPages(pager.geo, pager.Snapshot())
      requires base + 64 * SLAB_CACHE_SIZE <= pager.geo.virtStart && 0 < pager.geo.pages
      requires maxSlabSize == 0x10_0000
      ensures Valid()
    {}

    /** What one page of page_alloc means for the heap, whatever the state of the pool:
        the page that it answers is a new one, and meets no live block and no slab header,
        exactly if the virtual pool has a free page. */
    lemma AnsweredPage(idx: nat)
      requires Valid() && IsAllocIndex(pager.Snapshot().virt, 1, idx)
      ensures var page := VPage(pager.geo, idx);
              HM.PageBase(page)
              && (page !in HM.Pages(st) <==> HasRun(pager.Snapshot().virt, 1))
              && (!Collides(st, page, PAGE_SIZE) <==> HasRun(pager.Snapshot().virt, 1))
    {
      var g, s := pager.geo, pager.Snapshot();
      RepInv(ram.cells, base, st);
      hide Rep, HM.Inv, GeoOk, TablesOk, Capacity, Mapping, Boot.KernelMapped, HM.PageBase, HM.Pages, Collides,
           Pager.Shape;
      InvParts(g, s);
      AnsweredBit(s.virt, idx);
      VPageIsBase(g, idx);
      UsedPage(g, s, idx);
      CollidesIffUsed(st, VPage(g, idx));
    }

    /** page_alloc(KERNEL_2M, 1). The new page's contents are whatever its physical
        page holds. */
    method NewPage() returns (b: nat)
      requires pager.Valid() && HasRun(pager.Snapshot().virt, 1)
      modifies ram, pager, pager.virt.bitmap.bytes, pager.core.bitmap.bytes, pager.four.bitmap.bytes
      ensures pager.Valid() && HM.PageBase(b) && pager.geo.virtStart <= b
      ensures b !in old(VirtPages(pager.geo, pager.Snapshot()))
      ensures VirtPages(pager.geo, pager.Snapshot()) == old(VirtPages(pager.geo, pager.Snapshot())) + {b}
      ensures TookPage(pager.geo, old(pager.Snapshot()), pager.Snapshot(), b)
      ensures InPage(old(ram.cells), ram.cells, b)
    {
      ghost var s := pager.Snapshot();
      ghost var idx;
      hide Inv, HasRun, Allocated, VirtPages, HM.PageBase, VPage, TookPage;
      b, idx := pager.PageAlloc(1);
      PageAdded(pager.geo, s, pager.Snapshot(), idx);
      ram.Remap(b, b + PAGE_SIZE);
    }

    /** page_free(KERNEL_2M, addr, 1). */
    method DropPage(addr: nat, ghost b: nat)
      requires pager.Valid() && b in VirtPages(pager.geo, pager.Snapshot()) && b <= addr < b + PAGE_SIZE
      modifies pager, pager.virt.bitmap.bytes, pager.core.bitmap.bytes
      ensures pager.Valid()
      ensures VirtPages(pager.geo, pager.Snapshot()) == old(VirtPages(pager.geo, pager.Snapshot())) - {b}
    {
      ghost var s := pager.Snapshot();
      ghost var idx := PageIndexOf(pager.geo, s, addr, b);
      hide Inv, Freed, VirtPages, VPage, Ones, PageIdx, InVirt;
      var ok := pager.PageFree(addr, 1);
      PageDropped(pager.geo, s, pager.Snapshot(), idx);
    }

    // ---- slab.c ----

    /** slab_create: a new page is formatted as a slab of free items. */
    method SlabCreate(slabSize: nat, ghost c: nat) returns (slab: nat)
      requires pager.Valid() && HasRun(pager.Snapshot().virt, 1)
      requires c < SLAB_CACHE_SIZE && slabSize == SizeOf(c)
      modifies ram, pager, pager.virt.bitmap.bytes, pager.core.bitmap.bytes, pager.four.bitmap.bytes
      ensures pager.Valid() && HM.PageBase(slab) && pager.geo.virtStart <= slab
      ensures slab !in old(VirtPages(pager.geo, pager.Snapshot()))
      ensures VirtPages(pager.geo, pager.Snapshot()) == old(VirtPages(pager.geo, pager.Snapshot())) + {slab}
      ensures TookPage(pager.geo, old(pager.Snapshot()), pager.Snapshot(), slab)
      ensures InPage(old(ram.cells), ram.cells, slab)
      ensures SlabRep(ram.cells, slab, NewSlab(slab, c))
      ensures LaidOut(ram.cells, slab, slabSize, NewSlab(slab, c).free)
    {
      hide Inv, HasRun, VirtPages, HM.PageBase, InPage, SlabRep, TookPage, LaidOut, NewSlab;
      slab := NewPage();
      ghost var m := ram.cells;
      FormatSlab(slab, slabSize, c);
      NewSlabLaidOut(ram.cells, slab, c);
      InPageTrans(old(ram.cells), m, ram.cells, slab);
    }

    /** The body of slab_create after page_alloc. */
    method FormatSlab(slab: nat, slabSize: nat, ghost c: nat)
      requires HM.PageBase(slab) && c < SLAB_CACHE_SIZE && slabSize == SizeOf(c)
      modifies ram
      ensures InPage(old(ram.cells), ram.cells, slab)
      ensures SlabRep(ram.cells, slab, NewSlab(slab, c))
    {
      ghost var m0 := ram.cells;
      SlabFields(slab, Exp(c));
      hide AlignAddrUp, Total, ItemAt, Pow2, HM.PageBase, SlabRep, InPage, Header, IsList, OnlyNodes;
      ram.Store(slab + 16, slabSize);
      var slabEnd := slab + SIZEOF_SLAB;
      var start := AlignAddrUp(slabEnd, slabSize);
      ram.Store(slab + 64, start);
      var end := slab + PAGE_SIZE;
      ram.Store(slab + 72, end);
      var total := (end - start) / slabSize;
      ram.Store(slab + 20, total);
      ram.Store(slab + 24, total);
      ram.Store(slab + 80, SLAB_MAGIC);
      HeaderStored(m0, ram.cells, slab, c);
      ghost var m1 := ram.cells;
      ram.ListInit(FreeList(slab));
      SentinelsInPage(m1, ram.cells, slab, c);
      InPageTrans(m0, m1, ram.cells, slab);
      Carve(slab, start, slabSize, total, c);
    }

    /** The carve loop of slab_create: every item joins the free list, in address order. */
    method Carve(slab: nat, start: nat, slabSize: nat, total: nat, ghost c: nat)
      requires HM.PageBase(slab) && c < SLAB_CACHE_SIZE && slabSize == SizeOf(c)
      requires start == ItemAt(slab, Exp(c), 0) && total == Total(Exp(c))
      requires Header(ram.cells, slab, c) && Rd(ram.cells, slab + 24) == total
      requires IsList(ram.cells, FreeList(slab), [])
      modifies ram
      ensures InPage(old(ram.cells), ram.cells, slab)
      ensures SlabRep(ram.cells, slab, NewSlab(slab, c))
    {
      ghost var m0 := ram.cells;
      hide Total, ItemAt, Pow2, SizeOf, HM.PageBase, SlabRep, InPage, Header, IsList, OnlyNodes, FreshNode, HM.ItemSeq;
      CarveStart(ram.cells, slab, c);
      var i := 0;
      while i < total
        invariant i <= total && Carved(m0, ram.cells, slab, c, i)
      {
        ItemOffset(slab, c, i);
        CarveFresh(slab, c, i);
        CarvedList(m0, ram.cells, slab, c, i);
        ghost var m := ram.cells;
        ram.ListAppend(FreeList(slab), start + i * slabSize, HM.ItemSeq(slab, c, i));
        CarveStep(m0, m, ram.cells, slab, c, i);
        i := i + 1;
      }
      CarveEnd(m0, ram.cells, slab, c);
    }

    /** The `if` of slab_alloc: an empty cache gets a new slab. */
    method GrowCache(c: nat) returns (slab: nat)
      requires Valid() && c < SLAB_CACHE_SIZE && HasRun(pager.Snapshot().virt, 1)
      modifies this`st, ram, pager, pager.virt.bitmap.bytes, pager.core.bitmap.bytes, pager.four.bitmap.bytes
      ensures Valid() && slab !in HM.Pages(old(st)) && HM.PageBase(slab)
      ensures st == HM.AddSlab(old(st), c, slab)
      ensures TookPage(pager.geo, old(pager.Snapshot()), pager.Snapshot(), slab)
      ensures Quiet(old(st), 0, old(ram.cells), ram.cells)
    {
      ghost var h := st;
      ghost var m0 := ram.cells;
      hide Heap.Valid, Pager.Valid, Pager.Snapshot, HasRun, Rep, VirtPages, HM.PageBase, HM.Pages, HM.AddSlab,
           SlabRep, Quiet, NewSlab, TookPage;
      ValidParts();
      RepCaches(m0, base, h);
      slab := PrepareSlab(c);
      ghost var s := pager.Snapshot();
      LinkSlab(c, slab, m0);
      assert pager.Snapshot() == s;
    }

    /** slab_create for a cache, before the slab is linked. */
    method PrepareSlab(c: nat) returns (slab: nat)
      requires Valid() && c < SLAB_CACHE_SIZE && HasRun(pager.Snapshot().virt, 1)
      modifies ram, pager, pager.virt.bitmap.bytes, pager.core.bitmap.bytes, pager.four.bitmap.bytes
      ensures pager.Valid() && HM.PageBase(slab) && pager.geo.virtStart <= slab
      ensures slab !in HM.Pages(st) && VirtPages(pager.geo, pager.Snapshot()) == HM.Pages(st) + {slab}
      ensures Rep(ram.cells, base, st) && SlabRep(ram.cells, slab, NewSlab(slab, c))
      ensures TookPage(pager.geo, old(pager.Snapshot()), pager.Snapshot(), slab)
      ensures Quiet(st, 0, old(ram.cells), ram.cells)
    {
      ghost var m0 := ram.cells;
      hide Pager.Valid, Pager.Snapshot, HasRun, Rep, VirtPages, HM.PageBase, InPage, SlabRep, HM.Pages, SizeOf, CacheOk,
           NewSlab, CacheAddr, Quiet, TookPage, LaidOut;
      CacheFields(m0, base, st, c);
      var size := ram.Load(CacheAddr(base, c));
      slab := SlabCreate(size, c);
      CreatedSlab(m0, ram.cells, base, st, c, slab);
    }

    /** The new slab joins its cache. */
    method LinkSlab(c: nat, slab: nat, ghost m0: Cells)
      requires pager.Valid() && VirtPages(pager.geo, pager.Snapshot()) == HM.Pages(st) + {slab}
      requires base + 64 * SLAB_CACHE_SIZE <= pager.geo.virtStart <= slab && 0 < pager.geo.pages
      requires maxSlabSize == 0x10_0000
      requires Rep(ram.cells, base, st) && c < SLAB_CACHE_SIZE && slab !in HM.Pages(st) && HM.PageBase(slab)
      requires SlabRep(ram.cells, slab, NewSlab(slab, c)) && Quiet(st, 0, m0, ram.cells)
      modifies this`st, ram
      ensures Valid() && st == HM.AddSlab(old(st), c, slab)
      ensures Quiet(old(st), 0, m0, ram.cells)
    {
      hide Heap.Valid, Pager.Valid, Pager.Snapshot, VirtPages, HM.PageBase, SlabRep, HM.Pages, HM.AddSlab, NewSlab,
           Rep, Quiet;
      RepCaches(ram.cells, base, st);
      ghost var pages := HM.Pages(st) + {slab};
      PushSlab(c, slab, m0);
      AddPages(st, c, slab);
      st := HM.AddSlab(st, c, slab);
      ValidFrom(pages);
    }

    /** list_push of a new slab and the cache's two counters. */
    method PushSlab(c: nat, slab: nat, ghost m0: Cells)
      requires Rep(ram.cells, base, st) && c < SLAB_CACHE_SIZE && slab !in HM.Pages(st)
      requires HM.PageBase(slab) && base + 64 * SLAB_CACHE_SIZE <= slab
      requires SlabRep(ram.cells, slab, NewSlab(slab, c)) && Quiet(st, 0, m0, ram.cells)
      modifies ram
      ensures Rep(ram.cells, base, HM.AddSlab(st, c, slab)) && Quiet(st, 0, m0, ram.cells)
    {
      ghost var m1 := ram.cells;
      var ca := CacheAddr(base, c);
      hide HM.PageBase, SlabRep, IsList, OnlyNodes, HM.Pages, FreshNode, HM.ItemSeq, Total, SizeOf, Counted,
           HM.AddSlab, Chain, SlabList, CacheAddr, NewSlab, HM.Inv, Rep, Above, SlabsOk, CacheOk, Quiet;
      LinkReady(m1, base, st, c, slab);
      ram.ListPush(SlabList(base, c), slab, st.lists[c]);
      ghost var m2 := ram.cells;
      CreatedCount(m1, m2, base, st, c, slab);
      AddCounters(ca, slab, Total(Exp(c)));
      GrownCache(m1, m2, base, st, c, slab);
      LinkQuiet(m1, m2, base, st, c, slab);
      QuietTrans(st, 0, m0, m1, ram.cells);
    }

    /** `cache->total += slab->total; cache->total_free += slab->total_free;` */
    method AddCounters(ca: nat, slab: nat, ghost t: nat)
      requires Rd(ram.cells, slab + 20) == t && Rd(ram.cells, slab + 24) == t
      requires slab + 20 != ca + 4 && slab + 24 != ca + 4
      modifies ram
      ensures ram.cells == Counted(old(ram.cells), ca, t)
    {
      var n := ram.Load(slab + 20);
      var v := ram.Load(ca + 4);
      ram.Store(ca + 4, (v + n) % U32);
      n := ram.Load(slab + 24);
      v := ram.Load(ca + 8);
      ram.Store(ca + 8, (v + n) % U32);
    }

    /** `cache->total_free--; slab->total_free--;` */
    method SubCounters(ca: nat, slab: nat)
      modifies ram
      ensures ram.cells == CountedDown(old(ram.cells), ca, slab)
    {
      var v := ram.Load(ca + 8);
      ram.Store(ca + 8, Minus(v, 1));
      v := ram.Load(slab + 24);
      ram.Store(slab + 24, Minus(v, 1));
    }

    /** The rest of slab_alloc. */
    method TakeFirst(c: nat) returns (addr: nat)
      requires Valid() && c < SLAB_CACHE_SIZE && st.lists[c] != []
      modifies this`st, ram
      ensures Valid() && TakesFirst(old(st), c, addr, st)
      ensures Zero(ram.cells, addr, addr + SizeOf(c))
      ensures Quiet(old(st), 0, old(ram.cells), ram.cells)
    {
      hide Pager.Valid, Pager.Snapshot, Rep, VirtPages, HM.Pages, SizeOf, HM.TakeItem, Zero, Quiet, Heap.Valid,
           TakesFirst;
      ValidParts();
      ghost var pages := HM.Pages(st);
      RepCaches(ram.cells, base, st);
      addr, st := TakeFromSlab(c);
      ValidFrom(pages);
    }

    /** The statements of slab_alloc that take an item: they only write the heap's memory. */
    method TakeFromSlab(c: nat) returns (addr: nat, ghost h': HM.State)
      requires Rep(ram.cells, base, st) && c < SLAB_CACHE_SIZE && st.lists[c] != []
      modifies ram
      ensures TakesFirst(st, c, addr, h') && HM.Pages(h') == HM.Pages(st) && Rep(ram.cells, base, h')
      ensures Zero(ram.cells, addr, addr + SizeOf(c))
      ensures Quiet(st, 0, old(ram.cells), ram.cells)
    {
      ghost var m0 := ram.cells;
      hide Rep, HM.Pages, SizeOf, SlabRep, CacheOk, HM.SlabOk, HM.Items, HM.TakeItem, IsList, Zero, TakesFirst,
           CacheAddr, HM.Inv, ItemPopped, HM.PageBase, SlabList, Quiet;
      TakenFacts(m0, base, st, c);
      var slab;
      slab, addr := PopItem(c);
      ghost var m2 := ram.cells;
      CountDown(c, slab, m0);
      QuietTrans(st, 0, m0, m2, ram.cells);
      FirstTaken(st, c, addr);
      h' := HM.TakeItem(st, c);
    }

    /** The first slab's first item leaves the free list and is cleared. */
    method PopItem(c: nat) returns (slab: nat, addr: nat)
      requires Rep(ram.cells, base, st) && c < SLAB_CACHE_SIZE && st.lists[c] != []
      requires st.lists[c][0] in st.slabs && st.slabs[st.lists[c][0]].free != []
      modifies ram
      ensures slab == st.lists[c][0] && addr == st.slabs[slab].free[0]
      ensures ItemPopped(old(ram.cells), ram.cells, base, st, c)
      ensures Quiet(st, 0, old(ram.cells), ram.cells)
    {
      ghost var m0 := ram.cells;
      hide Rep, IsList, OnlyNodes, HM.SlabOk, HM.Items, SizeOf, SlabRep, CacheOk, Zero, HM.PageBase, Header, HM.Inv,
           SameOutside, Quiet, Chain, FreeList, CacheAddr, ItemPopped;
      slab := FirstSlab(c);
      ghost var s := st.slabs[slab];
      TakenFacts(m0, base, st, c);
      ghost var m1;
      addr, m1 := PopFree(c, slab, s);
      PagesAligned(slab);
      PoppedAndCleared(m0, m1, ram.cells, slab, s);
      IsPopped(m0, ram.cells, base, st, c, slab, s);
      PopQuiet(m0, m1, ram.cells, base, st, c, slab);
    }

    /** list_pop, GET_SLAB_ITEM and memset; m1 is memory after list_pop. */
    method PopFree(c: nat, slab: nat, ghost s: HM.Slab) returns (addr: nat, ghost m1: Cells)
      requires Rep(ram.cells, base, st) && c < SLAB_CACHE_SIZE && s.cls == c && s.free != []
      requires HM.PageBase(slab) && base + 64 * SLAB_CACHE_SIZE <= slab && HM.SlabOk(slab, s)
      requires SlabRep(ram.cells, slab, s) && s.free[0] in HM.Items(slab, c)
      modifies ram
      ensures addr == s.free[0] && IsList(m1, FreeList(slab), s.free[1..])
      ensures OnlyNodes(old(ram.cells), m1, [FreeList(slab), Chain(FreeList(slab), s.free)[2]])
      ensures SameOutside(m1, ram.cells, addr, addr + SizeOf(c)) && Zero(ram.cells, addr, addr + SizeOf(c))
    {
      ghost var m0 := ram.cells;
      PagesAligned(slab);
      hide Rep, IsList, OnlyNodes, HM.SlabOk, HM.Items, SizeOf, SlabRep, Zero, HM.PageBase, SameOutside, Chain,
           FreeList, CacheAddr;
      SlabFreeList(m0, slab, s);
      var item := ram.ListPop(FreeList(slab), s.free);
      m1 := ram.cells;
      CacheSize(m0, m1, base, st, c, slab, s);
      addr := ClearItem(CacheAddr(base, c), item, slab, c);
    }

    /** The slab that the head of the cache's list lies in. */
    method FirstSlab(c: nat) returns (slab: nat)
      requires Rep(ram.cells, base, st) && c < SLAB_CACHE_SIZE && st.lists[c] != []
      ensures slab == st.lists[c][0]
    {
      TakenFacts(ram.cells, base, st, c);
      HeadNext(ram.cells, SlabList(base, c), st.lists[c]);
      PageOfAddress(st.lists[c][0], st.lists[c][0]);
      hide Rep, IsList, HM.SlabOk, SlabRep, CacheOk, And, HM.PageBase, HM.Items;
      var head := ram.Load(SlabList(base, c) + 8);
      slab := And(head, SLAB_MASK);
    }

    /** GET_SLAB_ITEM and memset. */
    method ClearItem(ca: nat, item: nat, ghost b: nat, ghost c: nat) returns (addr: nat)
      requires c < SLAB_CACHE_SIZE && HM.PageBase(b) && item in HM.Items(b, c)
      requires Rd(ram.cells, ca) == SizeOf(c)
      modifies ram
      ensures addr == item && Zero(ram.cells, item, item + SizeOf(c))
      ensures SameOutside(old(ram.cells), ram.cells, item, item + SizeOf(c))
    {
      ItemAligned(b, c, item);
      hide SizeOf, GetSlabItem, HM.PageBase, HM.Items;
      var size := ram.Load(ca);
      addr := GetSlabItem(item, size);
      ram.Memset(addr, 0, size);
    }

    /** slab_alloc's counters, and list_pop of a slab without free items. */
    method CountDown(c: nat, slab: nat, ghost m0: Cells)
      requires Rep(m0, base, st) && c < SLAB_CACHE_SIZE && st.lists[c] != [] && slab == st.lists[c][0]
      requires slab in st.slabs && st.slabs[slab].free != [] && ItemPopped(m0, ram.cells, base, st, c)
      modifies ram
      ensures Rep(ram.cells, base, HM.TakeItem(st, c))
      ensures var a := st.slabs[slab].free[0];
              Zero(ram.cells, a, a + SizeOf(c))
      ensures Quiet(st, 0, old(ram.cells), ram.cells)
    {
      ghost var m2 := ram.cells;
      ghost var s := st.slabs[slab];
      var ca := CacheAddr(base, c);
      hide Rep, IsList, OnlyNodes, HM.SlabOk, HM.Items, SizeOf, SlabRep, CacheOk, CacheRep, Zero, HM.PageBase, Header,
           FreeSum, ClassSlabs, HM.TakeItem, ItemPopped, OnlyCountersAndItems, HM.NoDup, HM.Inv, CountedDown, Taken,
           ListNodesOk, Quiet, PoppedIfEmpty;
      TakenFacts(m0, base, st, c);
      CountDownFacts(m0, m2, base, st, c, slab, s);
      ghost var free := FreeSum(st.slabs, ClassSlabs(st, c)) - 1;
      SubCounters(ca, slab);
      ghost var m4 := ram.cells;
      PopEmptySlab(c, slab, s);
      TakenRep(m0, m4, ram.cells, base, st, c, slab, s, free);
      TakenZero(m2, m4, ram.cells, base, c, slab, s, st.lists[c]);
      CountQuiet(m0, m2, m4, ram.cells, base, st, c, slab);
    }

    /** `if(slab->total_free == 0) list_pop(&cache->slab_list);` */
    method PopEmptySlab(c: nat, slab: nat, ghost s: HM.Slab)
      requires c < |st.lists| && st.lists[c] != [] && s.free != [] && Rd(ram.cells, slab + 24) == |s.free| - 1
      requires IsList(ram.cells, SlabList(base, c), st.lists[c])
      modifies ram
      ensures PoppedIfEmpty(old(ram.cells), ram.cells, base, c, s, st.lists[c])
    {
      hide IsList, OnlyNodes, Chain;
      var v := ram.Load(slab + 24);
      if v == 0 {
        var first := ram.ListPop(SlabList(base, c), st.lists[c]);
      }
    }

    /** slab_alloc. */
    method SlabAlloc(c: nat) returns (addr: nat, ghost page: nat)
      requires Valid() && c < SLAB_CACHE_SIZE && (st.lists[c] == [] ==> HasRun(pager.Snapshot().virt, 1))
      modifies this`st, ram, pager, pager.virt.bitmap.bytes, pager.core.bitmap.bytes, pager.four.bitmap.bytes
      ensures Valid()
      ensures old(st).lists[c] == [] ==>
                page !in HM.Pages(old(st)) && HM.PageBase(page)
                && TookPage(pager.geo, old(pager.Snapshot()), pager.Snapshot(), page)
      ensures old(st).lists[c] != [] ==> pager.Snapshot() == old(pager.Snapshot())
      ensures var h1 := Ready(old(st), c, page);
              TakesFirst(h1, c, addr, st)
      ensures Zero(ram.cells, addr, addr + SizeOf(c))
      ensures Quiet(old(st), 0, old(ram.cells), ram.cells)
    {
      ghost var h := st;
      ghost var m0 := ram.cells;
      CacheListOf(m0, base, h, c);
      hide Inv, HasRun, Rep, VirtPages, HM.PageBase, HM.Pages, HM.AddSlab, SizeOf, HM.Inv, Quiet, Zero, HM.TakeItem,
           IsList, Ready, TookPage;
      ReadyIs(h, c);
      page := 0;
      var empty := ram.ListEmpty(SlabList(base, c), h.lists[c]);
      if empty {
        page := GrowCache(c);
      }
      ghost var h1 := st;
      ghost var m1 := ram.cells;
      GrownReady(h, h1, c, page);
      addr := TakeFirst(c);
      QuietGrown(h, h1, c, page, m0, m1, ram.cells);
    }

    /** kmalloc. A page that is needed is the first free one of the virtual pool; otherwise
        the pools and the page tables are untouched. `IsBlockSize` and `KmallocBlock` say in
        numbers which block a request gets. */
    method Kmalloc(size: nat) returns (addr: nat, ghost page: nat)
      requires Valid()
      requires size <= PAGE_SIZE && NeedsPage(st, size) ==> HasRun(pager.Snapshot().virt, 1)
      modifies this`st, ram, pager, pager.virt.bitmap.bytes, pager.core.bitmap.bytes, pager.four.bitmap.bytes
      ensures Valid() && Quiet(old(st), 0, old(ram.cells), ram.cells)
      ensures size > PAGE_SIZE ==> addr == 0 && st == old(st) && ram.cells == old(ram.cells)
      ensures size <= PAGE_SIZE ==>
                (NeedsPage(old(st), size) ==>
                   page !in HM.Pages(old(st)) && HM.PageBase(page) && !Collides(old(st), page, PAGE_SIZE)
                   && TookPage(pager.geo, old(pager.Snapshot()), pager.Snapshot(), page))
                && (!NeedsPage(old(st), size) ==> pager.Snapshot() == old(pager.Snapshot()))
                && (st, addr) == HeapTheorems.Kmalloc(old(st), size, page)
                && Zero(ram.cells, addr, addr + BlockSize(size)) && IsBlockSize(size, BlockSize(size))
      ensures 0x10_0000 < size <= PAGE_SIZE ==> Rd(ram.cells, addr + 80) != SLAB_MAGIC
    {
      ghost var h := st;
      RepInv(ram.cells, base, h);
      hide Inv, HasRun, Rep, VirtPages, HM.PageBase, HM.AddSlab, SizeOf, HM.Inv, Quiet, Zero, HM.TakeItem, LeastClass,
           Ready, Collides, HM.Pages, TookPage, IsBlockSize;
      page := 0;
      if size > PAGE_SIZE {
        QuietSame(st, 0, ram.cells);
        return 0, 0;
      }
      BlockSizeIs(size);
      if size > maxSlabSize {
        var pageCnt := (size + PAGE_SIZE - 1) / PAGE_SIZE;
        OnePage(size);
        addr := LargeAlloc(pageCnt);
        page := addr;
        NoStaleMagic(ram.cells, addr);
        CollidesIffUsed(h, page);
      } else {
        SizeValues();
        var i := FindCache(size);
        SameClass(size, i);
        addr, page := SlabAlloc(i);
        if h.lists[i] == [] {
          CollidesIffUsed(h, page);
        }
      }
    }

    /** The loop of kmalloc over the sizes stored in the caches. */
    method FindCache(size: nat) returns (i: nat)
      requires Rep(ram.cells, base, st) && size <= SizeOf(SLAB_CACHE_SIZE - 1)
      ensures LeastClass(size, i)
    {
      hide SizeOf, Rep, CacheOk, CacheAddr;
      i := 0;
      while i < SLAB_CACHE_SIZE
        invariant i <= SLAB_CACHE_SIZE - 1
        invariant forall d: nat :: d < i ==> SizeOf(d) < size
      {
        CacheFields(ram.cells, base, st, i);
        var slabSize := ram.Load(CacheAddr(base, i));
        if slabSize >= size {
          break;
        }
        i := i + 1;
      }
    }

    /** The large-block branch of kmalloc. */
    method LargeAlloc(pageCnt: nat) returns (addr: nat)
      requires Valid() && pageCnt == 1 && HasRun(pager.Snapshot().virt, 1)
      modifies this`st, ram, pager, pager.virt.bitmap.bytes, pager.core.bitmap.bytes, pager.four.bitmap.bytes
      ensures Valid() && addr !in HM.Pages(old(st)) && HM.PageBase(addr)
      ensures TookPage(pager.geo, old(pager.Snapshot()), pager.Snapshot(), addr)
      ensures st == old(st).(large := old(st).large + {addr})
      ensures Zero(ram.cells, addr, addr + PAGE_SIZE)
      ensures Quiet(old(st), 0, old(ram.cells), ram.cells)
    {
      hide Heap.Valid, Pager.Valid, Pager.Snapshot, HasRun, Rep, VirtPages, HM.PageBase, HM.Inv, Quiet, Zero,
           InPage, HM.Pages, TookPage;
      ValidParts();
      addr := LargePage(pageCnt);
      ghost var pages := HM.Pages(st) + {addr};
      st := st.(large := st.large + {addr});
      ValidFrom(pages);
    }

    /** page_alloc and memset of a large block. */
    method LargePage(pageCnt: nat) returns (addr: nat)
      requires Valid() && pageCnt == 1 && HasRun(pager.Snapshot().virt, 1)
      modifies ram, pager, pager.virt.bitmap.bytes, pager.core.bitmap.bytes, pager.four.bitmap.bytes
      ensures pager.Valid() && VirtPages(pager.geo, pager.Snapshot()) == HM.Pages(st) + {addr}
      ensures addr !in HM.Pages(st) && HM.PageBase(addr)
      ensures TookPage(pager.geo, old(pager.Snapshot()), pager.Snapshot(), addr)
      ensures var h' := st.(large := st.large + {addr});
              Rep(ram.cells, base, h') && HM.Pages(h') == HM.Pages(st) + {addr}
      ensures Zero(ram.cells, addr, addr + PAGE_SIZE)
      ensures Quiet(st, 0, old(ram.cells), ram.cells)
    {
      ghost var h := st;
      ghost var m0 := ram.cells;
      hide Heap.Valid, Pager.Valid, Pager.Snapshot, HasRun, Rep, VirtPages, HM.PageBase, HM.Inv, Quiet, Zero,
           InPage, HM.Pages, TookPage;
      ValidParts();
      addr := NewPage();
      ghost var m1 := ram.cells;
      ram.Memset(addr, 0, pageCnt * PAGE_SIZE);
      LargeRep(m0, m1, ram.cells, base, h, addr);
    }

    /** slab_free. `addr` may point anywhere into the live item a of slab b. */
    method SlabFree(c: nat, addr: nat, ghost b: nat, ghost a: nat)
      requires Valid() && c < SLAB_CACHE_SIZE && b in st.slabs && st.slabs[b].cls == c && a in st.slabs[b].live
      requires a <= addr < a + SizeOf(c)
      modifies this`st, ram, pager, pager.virt.bitmap.bytes, pager.core.bitmap.bytes
      ensures Valid() && st == HM.GiveItem(old(st), b, a)
      ensures Quiet(old(st), a, old(ram.cells), ram.cells)
    {
      ghost var h := st;
      hide Pager.Valid, Pager.Snapshot, Rep, VirtPages, HM.Pages, HM.GiveItem, Quiet, SizeOf, HM.Inv;
      RepInv(ram.cells, base, h);
      GivePagesExact(h, b, a);
      PageIsHeld(h, pager.geo, pager.Snapshot(), b);
      var slab, release := FreeItem(c, addr, b, a);
      if release {
        DropPage(slab, slab);
      }
      st := HM.GiveItem(st, b, a);
    }

    /** slab_free without the release of the page. */
    method FreeItem(c: nat, addr: nat, ghost b: nat, ghost a: nat) returns (slab: nat, release: bool)
      requires Rep(ram.cells, base, st) && c < SLAB_CACHE_SIZE
      requires b in st.slabs && st.slabs[b].cls == c && a in st.slabs[b].live && a <= addr < a + SizeOf(c)
      modifies ram
      ensures slab == b && Rep(ram.cells, base, HM.GiveItem(st, b, a))
      ensures release <==> b !in HM.GiveItem(st, b, a).slabs
      ensures Quiet(st, a, old(ram.cells), ram.cells)
    {
      ghost var m0 := ram.cells;
      hide Rep, HM.GiveItem, Quiet, SizeOf, ItemPushed, HM.Inv;
      slab := PushItem(c, addr, b, a);
      ghost var m2 := ram.cells;
      release := SettleSlab(c, slab, m0, a);
      QuietTrans(st, a, m0, m2, ram.cells);
    }

    /** slab_free up to its two counters. */
    method PushItem(c: nat, addr: nat, ghost b: nat, ghost a: nat) returns (slab: nat)
      requires Rep(ram.cells, base, st) && c < SLAB_CACHE_SIZE
      requires b in st.slabs && st.slabs[b].cls == c && a in st.slabs[b].live && a <= addr < a + SizeOf(c)
      modifies ram
      ensures slab == b && ItemPushed(old(ram.cells), ram.cells, base, st, b, a)
      ensures Quiet(st, a, old(ram.cells), ram.cells)
    {
      ghost var m0 := ram.cells;
      ghost var s := st.slabs[b];
      hide Rep, IsList, OnlyNodes, HM.SlabOk, HM.Items, SizeOf, SlabRep, And, GetSlabItem, HM.PageBase, Header, HM.Inv,
           Quiet, ItemPushed, CountedUp, FreshNode, Chain;
      LiveItemFacts(m0, base, st, b, a, addr);
      slab := And(addr, SLAB_MASK);
      var size := ram.Load(slab + 16);
      var node := GetSlabItem(addr, size);
      ram.ListPush(FreeList(slab), node, s.free);
      ghost var m1 := ram.cells;
      UpCounters(CacheAddr(base, c), slab);
      PushedState(m0, m1, base, st, c, b, a);
    }

    /** `slab->total_free++; cache->total_free++;` */
    method UpCounters(ca: nat, slab: nat)
      modifies ram
      ensures ram.cells == CountedUp(old(ram.cells), ca, slab)
    {
      var v := ram.Load(slab + 24);
      ram.Store(slab + 24, (v + 1) % U32);
      v := ram.Load(ca + 8);
      ram.Store(ca + 8, (v + 1) % U32);
    }

    /** The rest of slab_free: the slab goes on the cache's list, or off it, or stays. */
    method SettleSlab(c: nat, slab: nat, ghost m0: Cells, ghost a: nat) returns (release: bool)
      requires Rep(m0, base, st) && c < SLAB_CACHE_SIZE && slab in st.slabs && st.slabs[slab].cls == c
      requires a in st.slabs[slab].live && ItemPushed(m0, ram.cells, base, st, slab, a)
      modifies ram
      ensures Rep(ram.cells, base, HM.GiveItem(st, slab, a))
      ensures release <==> slab !in HM.GiveItem(st, slab, a).slabs
      ensures Quiet(st, a, old(ram.cells), ram.cells)
    {
      ghost var s := st.slabs[slab];
      ghost var m2 := ram.cells;
      hide Rep, IsList, OnlyNodes, SizeOf, SlabRep, HM.PageBase, HM.Inv, Quiet, CacheRep, OnlyCountersAndItems,
           HM.GiveItem, FreeSum, ClassSlabs, Total, FreshNode, Chain, Given, HM.Without;
      PushedFacts(m0, m2, base, st, c, slab, a);
      hide ItemPushed;
      var n := ram.Load(slab + 24);
      var total := ram.Load(slab + 20);
      release := false;
      if n == 1 {
        RelinkSlab(c, slab, m0, a);
      } else if n == total {
        UnlinkSlab(c, slab, total, m0, a);
        release := true;
      } else {
        PushedPlain(m0, m2, base, st, c, slab, a);
        QuietSame(st, a, m2);
      }
    }

    method RelinkSlab(c: nat, slab: nat, ghost m0: Cells, ghost a: nat)
      requires Rep(m0, base, st) && c < SLAB_CACHE_SIZE && slab in st.slabs && st.slabs[slab].cls == c
      requires a in st.slabs[slab].live && ItemPushed(m0, ram.cells, base, st, slab, a) && st.slabs[slab].free == []
      modifies ram
      ensures Rep(ram.cells, base, HM.GiveItem(st, slab, a))
      ensures Quiet(st, a, old(ram.cells), ram.cells)
    {
      ghost var m2 := ram.cells;
      hide Rep, IsList, OnlyNodes, HM.Inv, Quiet, HM.GiveItem, FreshNode, Chain, ItemPushed;
      RelinkReady(m0, m2, base, st, c, slab, a);
      ram.ListPush(SlabList(base, c), slab, st.lists[c]);
      Relinked(m0, m2, ram.cells, base, st, c, slab, a);
    }

    method UnlinkSlab(c: nat, slab: nat, total: nat, ghost m0: Cells, ghost a: nat)
      requires Rep(m0, base, st) && c < SLAB_CACHE_SIZE && slab in st.slabs && st.slabs[slab].cls == c
      requires a in st.slabs[slab].live && ItemPushed(m0, ram.cells, base, st, slab, a) && st.slabs[slab].free != []
      requires |st.slabs[slab].free| + 1 == Total(Exp(c)) == total
      modifies ram
      ensures Rep(ram.cells, base, HM.GiveItem(st, slab, a))
      ensures Quiet(st, a, old(ram.cells), ram.cells)
    {
      ghost var m2 := ram.cells;
      hide Rep, IsList, OnlyNodes, HM.Inv, Quiet, HM.GiveItem, Chain, ItemPushed, LinkedLists.RemoveAt, Total,
           Subtracted, SlabList, CacheAddr;
      ghost var k := UnlinkReady(m0, m2, base, st, c, slab, a);
      ram.ListRemove(slab, SlabList(base, c), st.lists[c], k);
      ghost var m3 := ram.cells;
      SubTotal(CacheAddr(base, c), total);
      Unlinked(m0, m2, m3, base, st, c, slab, a, k);
    }

    /** `cache->total_free -= slab->total;` */
    method SubTotal(ca: nat, total: nat)
      modifies ram
      ensures ram.cells == Subtracted(old(ram.cells), ca, total)
    {
      var v := ram.Load(ca + 8);
      ram.Store(ca + 8, Minus(v, total));
    }

    /** kfree of the live block (a, n); `vaddr` may point anywhere into it. The client
        must not have left the slab magic at the header's offset of a large block. */
    method Kfree(vaddr: nat, ghost a: nat, ghost n: nat)
      requires Valid() && LiveBlock(st, a, n) && a <= vaddr < a + n
      requires a in st.large ==> Rd(ram.cells, a + 80) != 0x48_5848_0426
      modifies this`st, ram, pager, pager.virt.bitmap.bytes, pager.core.bitmap.bytes
      ensures Valid() && old(HM.Inv(st)) && st == HeapTheorems.Kfree(old(st), a)
      ensures Quiet(old(st), a, old(ram.cells), ram.cells)
    {
      ghost var h := st;
      hide Pager.Valid, Pager.Snapshot, Rep, VirtPages, HM.Pages, HM.GiveItem, Quiet, SizeOf, HM.Inv, LiveBlock,
           And, Ctz;
      RepInv(ram.cells, base, h);
      KfreeRoute(ram.cells, base, h, a, n, vaddr);
      var slab := And(vaddr, SLAB_MASK);
      var magic := ram.Load(slab + 80);
      if magic == SLAB_MAGIC {
        var start := Ctz(SLAB_START);
        var slabSize := ram.Load(slab + 16);
        var idx := Ctz(slabSize) - start;
        SlabFree(idx, vaddr, slab, a);
      } else {
        LargeDropped(ram.cells, base, h, a);
        PageHeldLarge(h, pager.geo, pager.Snapshot(), a);
        DropPage(vaddr, a);
        st := st.(large := st.large - {a});
        QuietSame(h, a, ram.cells);
      }
    }

    /** How kfree is misled: a client asks for a whole page and stores the slab magic at
        offset 80. Everything is valid and the block is live and no slab, but kfree's test
        on it takes the slab branch. */
    method MisleadKfree() returns (a: nat)
      requires Valid() && HasRun(pager.Snapshot().virt, 1)
      modifies this`st, ram, pager, pager.virt.bitmap.bytes, pager.core.bitmap.bytes, pager.four.bitmap.bytes
      ensures Valid() && LiveBlock(st, a, PAGE_SIZE) && a in st.large && a !in st.slabs
      ensures Rd(ram.cells, And(a, SLAB_MASK) + 80) == 0x48_5848_0426
    {
      ghost var h := st;
      hide Pager.Valid, Pager.Snapshot, HasRun, Rep, VirtPages, HM.PageBase, HM.Inv, Quiet, Zero, HM.Pages;
      a := LargeAlloc(1);
      LargeIsMasked(ram.cells, base, st, a);
      ClientStore(a + 80, SLAB_MAGIC, a, PAGE_SIZE);
    }

    /** A client's store into a block it holds. */
    method ClientStore(x: nat, v: nat, ghost a: nat, ghost n: nat)
      requires Valid() && LiveBlock(st, a, n) && a <= x && x + 8 <= a + n
      modifies ram
      ensures Valid() && ram.cells == old(ram.cells)[x := v]
      ensures Quiet(st, a, old(ram.cells), ram.cells)
    {
      ghost var m := ram.cells;
      hide Pager.Valid, Pager.Snapshot, Rep, VirtPages, HM.Pages, HM.Inv, LiveBlock;
      RepInv(m, base, st);
      ram.Store(x, v);
      StoreQuiet(m, base, st, a, n, x, v);
    }

    /** slab_init for cache c: its list, and one slab. */
    method SlabInit(c: nat, slabSize: nat) returns (ghost page: nat)
      requires pager.Valid() && c < SLAB_CACHE_SIZE && slabSize == SizeOf(c)
      requires Booting(ram.cells, base, st, c) && HM.Pages(st) == VirtPages(pager.geo, pager.Snapshot())
      requires base + 64 * SLAB_CACHE_SIZE <= pager.geo.virtStart && HasRun(pager.Snapshot().virt, 1)
      modifies this`st, ram, pager, pager.virt.bitmap.bytes, pager.core.bitmap.bytes, pager.four.bitmap.bytes
      ensures pager.Valid() && Booting(ram.cells, base, st, c + 1)
      ensures HM.Pages(st) == VirtPages(pager.geo, pager.Snapshot()) && |HM.Pages(st)| == |HM.Pages(old(st))| + 1
      ensures TookPage(pager.geo, old(pager.Snapshot()), pager.Snapshot(), page)
      ensures c < |old(st).lists| && c < |old(st).totals| && st == HM.AddSlab(old(st), c, page)
    {
      ghost var h := st;
      ghost var m0 := ram.cells;
      hide Pager.Valid, Pager.Snapshot, HasRun, VirtPages, HM.PageBase, HM.Pages, HM.AddSlab, SlabRep, Booting,
           CacheReady, SizeOf, CacheAddr, NewSlab, InPage, FirstSlabUnlinked, TookPage, LaidOut;
      CacheHeader(c, slabSize);
      ghost var m1 := ram.cells;
      var slab := SlabCreate(slabSize, c);
      ghost var m2 := ram.cells;
      FirstSlabReady(m0, m1, m2, base, h, c, slab);
      LinkFirstSlab(c, slab, m0);
      page := slab;
    }

    /** The first slab joins its cache. */
    method LinkFirstSlab(c: nat, slab: nat, ghost m0: Cells)
      requires pager.Valid() && VirtPages(pager.geo, pager.Snapshot()) == HM.Pages(st) + {slab}
      requires Booting(m0, base, st, c) && c < SLAB_CACHE_SIZE && HM.PageBase(slab) && slab !in HM.Pages(st)
      requires base + 64 * SLAB_CACHE_SIZE <= slab && FirstSlabUnlinked(m0, ram.cells, base, c, slab)
      modifies this`st, ram
      ensures pager.Valid() && Booting(ram.cells, base, st, c + 1)
      ensures HM.Pages(st) == VirtPages(pager.geo, pager.Snapshot()) && |HM.Pages(st)| == |HM.Pages(old(st))| + 1
      ensures c < |old(st).lists| && c < |old(st).totals| && st == HM.AddSlab(old(st), c, slab)
    {
      hide Pager.Valid, Pager.Snapshot, VirtPages, HM.PageBase, HM.Pages, HM.AddSlab, Booting, FirstSlabUnlinked;
      ghost var pages := HM.Pages(st) + {slab};
      BootLengths(m0, base, st, c);
      FirstSlabLinked(c, slab, m0);
      BootPages(st, c, slab);
      st := HM.AddSlab(st, c, slab);
    }

    method CacheHeader(c: nat, slabSize: nat)
      requires slabSize == SizeOf(c)
      modifies ram
      ensures CacheReady(old(ram.cells), ram.cells, base, c)
      ensures Rd(ram.cells, base + 64 * c + 48) == 0 && Rd(ram.cells, base + 64 * c + 56) == 0
    {
      var ca := CacheAddr(base, c);
      hide SizeOf, IsList, OnlyNodes;
      ghost var m := ram.cells;
      ram.Store(ca, slabSize);
      ram.Store(ca + 48, 0);
      ram.Store(ca + 56, 0);
      ghost var m1 := ram.cells;
      ram.ListInit(SlabList(base, c));
      TwoNodes(m1, ram.cells, SlabList(base, c), TailOf(SlabList(base, c)));
    }

    /** list_push of the first slab and the cache's counters. */
    method FirstSlabLinked(c: nat, slab: nat, ghost m0: Cells)
      requires Booting(m0, base, st, c) && c < SLAB_CACHE_SIZE && HM.PageBase(slab) && slab !in HM.Pages(st)
      requires base + 64 * SLAB_CACHE_SIZE <= slab && FirstSlabUnlinked(m0, ram.cells, base, c, slab)
      modifies ram
      ensures Booting(ram.cells, base, HM.AddSlab(st, c, slab), c + 1)
    {
      ghost var m2 := ram.cells;
      var ca := CacheAddr(base, c);
      hide IsList, OnlyNodes, SlabRep, Booting, HM.AddSlab, SizeOf, FreshNode, Chain, HM.PageBase, NewSlab, HM.Pages,
           CacheAddr, SlabList;
      FirstSlabFresh(m0, m2, base, c, slab);
      ram.ListPush(SlabList(base, c), slab, []);
      ghost var m3 := ram.cells;
      FirstSlabCount(m0, m2, m3, base, c, slab);
      SetCounters(ca, slab, Total(Exp(c)));
      BootStep(m0, m2, m3, ram.cells, base, st, c, slab);
    }

    /** `cache->total = slab->total; cache->total_free = slab->total_free;` */
    method SetCounters(ca: nat, slab: nat, ghost t: nat)
      requires Rd(ram.cells, slab + 20) == t && Rd(ram.cells, slab + 24) == t
      requires slab + 24 != ca + 4
      modifies ram
      ensures ram.cells == old(ram.cells)[ca + 4 := t][ca + 8 := t]
    {
      var v := ram.Load(slab + 20);
      ram.Store(ca + 4, v);
      v := ram.Load(slab + 24);
      ram.Store(ca + 8, v);
    }

    /** The slab part of init_memory: sixteen caches, each with one slab. */
    constructor Init(ram: Ram, pager: Pager, base: nat)
      requires pager.Valid() && Ones(pager.Snapshot().virt) == {} && SLAB_CACHE_SIZE <= pager.geo.pages
      requires 0 < base && base + 64 * SLAB_CACHE_SIZE <= pager.geo.virtStart
      modifies ram, pager, pager.virt.bitmap.bytes, pager.core.bitmap.bytes, pager.four.bitmap.bytes
      ensures this.ram == ram && this.pager == pager && this.base == base
      ensures Valid() && Safe(World(st, map[])) && |HM.Pages(st)| == SLAB_CACHE_SIZE
      ensures OneSlabEach(st, SLAB_CACHE_SIZE) && InRow(st, pager.geo.virtStart, 16)
    {
      this.ram := ram;
      this.pager := pager;
      this.base := base;
      maxSlabSize := SLAB_START;
      st := EmptyHeap();
      new;
      hide Pager.Valid, Pager.Snapshot, VirtPages, HM.Pages, Booting, SizeOf, Rep, Safe, OneSlabEach, Ones, FreshSlab;
      BootStart(ram.cells, base, pager.geo, pager.Snapshot());
      InitCaches();
      BootEnd(ram.cells, base, st);
    }

    /** The loop of init_memory over the caches; MAX_SLAB_SIZE ends as half a page. */
    method InitCaches()
      requires pager.Valid() && SLAB_CACHE_SIZE <= pager.geo.pages && Booting(ram.cells, base, st, 0)
      requires HM.Pages(st) == VirtPages(pager.geo, pager.Snapshot()) && |HM.Pages(st)| == 0
      requires base + 64 * SLAB_CACHE_SIZE <= pager.geo.virtStart
      requires Ones(pager.Snapshot().virt) == {} && maxSlabSize == SLAB_START
      modifies this`st, this`maxSlabSize
      modifies ram, pager, pager.virt.bitmap.bytes, pager.core.bitmap.bytes, pager.four.bitmap.bytes
      ensures pager.Valid() && Booting(ram.cells, base, st, SLAB_CACHE_SIZE)
      ensures HM.Pages(st) == VirtPages(pager.geo, pager.Snapshot()) && |HM.Pages(st)| == SLAB_CACHE_SIZE
      ensures maxSlabSize == 0x10_0000 && InRow(st, pager.geo.virtStart, 16)
    {
      hide Pager.Valid, Pager.Snapshot, HasRun, VirtPages, HM.Pages, Booting, SizeOf, Ones, TookPage, Range, FreshSlab,
           HM.AddSlab;
      EmptyRow(pager.Snapshot());
      SizeValues();
      var i := 0;
      while i < SLAB_CACHE_SIZE
        invariant i <= SLAB_CACHE_SIZE && maxSlabSize == SizeOf(i)
        invariant pager.Valid() && Booting(ram.cells, base, st, i)
        invariant HM.Pages(st) == VirtPages(pager.geo, pager.Snapshot()) && |HM.Pages(st)| == i
        invariant Ones(pager.Snapshot().virt) == Range(0, i) && InRow(st, pager.geo.virtStart, i)
      {
        RoomForPage(pager);
        BootAligned(pager);
        BootLengths(ram.cells, base, st, i);
        ghost var s, h := pager.Snapshot(), st;
        ghost var page := SlabInit(i, maxSlabSize);
        NextInRow(pager.geo, s, pager.Snapshot(), h, i, page);
        NextSize(i);
        maxSlabSize := maxSlabSize * 2;
        i := i + 1;
      }
      maxSlabSize := maxSlabSize / 2;
      LastSize();
    }
  }

  lemma LargeIsMasked(m: Cells, base: nat, h: HM.State, a: nat)
    requires Rep(m, base, h) && a in h.large
    ensures LiveBlock(h, a, PAGE_SIZE) && a !in h.slabs && And(a, SLAB_MASK) == a
  {
    RepInv(m, base, h);
    HeldPageBase(h, a);
    PageOfAddress(a, a);
    hide And, Rep;
  }

  /** A cleared page carries no slab magic, even when it was a slab before. */
  lemma NoStaleMagic(m: Cells, a: nat)
    requires Zero(m, a, a + PAGE_SIZE)
    ensures Rd(m, a + 80) != SLAB_MAGIC
  {}

  /** init_memory as a whole, on the loader's page tables, which it leaves intact up to
      34515 pages. `slabCache` is the address of the sixteen caches inside the kernel image. */
  method InitHeap(ram: Ram, physSize: nat, kernelEnd: nat, slabCache: nat, boot: PageTables.Frames,
                  buf4k: array<bv8>, bufUser: array<bv8>, bufCore: array<bv8>, bufVirt: array<bv8>)
    returns (heap: Heap)
    requires Bootable(physSize, kernelEnd) && Boot.BootTables(boot)
    requires KERNEL_BASE <= slabCache && slabCache + 64 * SLAB_CACHE_SIZE <= kernelEnd
    requires var p := InitMemory(physSize, kernelEnd);
             42 <= p.totalPages <= 34515
             && buf4k.Length == p.bytes4k && bufUser.Length == p.bytesUser
             && bufCore.Length == p.bytesCore && bufVirt.Length == p.bytesCore
    requires buf4k != bufUser && buf4k != bufCore && buf4k != bufVirt
    requires bufUser != bufCore && bufUser != bufVirt && bufCore != bufVirt
    modifies ram, buf4k, bufUser, bufCore, bufVirt
    ensures fresh(heap) && fresh(heap.pager) && heap.ram == ram && heap.base == slabCache
    ensures heap.pager.geo == Boot.BootGeo(physSize, kernelEnd)
    ensures heap.Valid() && Safe(World(heap.st, map[])) && |HM.Pages(heap.st)| == SLAB_CACHE_SIZE
    ensures OneSlabEach(heap.st, SLAB_CACHE_SIZE) && InRow(heap.st, heap.pager.geo.virtStart, 16)
    ensures HasRun(heap.pager.Snapshot().virt, 1) <==> 63 <= InitMemory(physSize, kernelEnd).totalPages
  {
    hide Bootable, InitMemory, Boot.BootTables, Boot.BootGeo, Boot.AfterBitmaps, Pager.Valid, Pager.Snapshot,
         Pager.Shape, Pager.Mirrors, Heap.Valid, Safe, Ones, HM.Pages, HasRun, OneSlabEach, FreshSlab;
    CachesBelowPool(physSize, kernelEnd, slabCache);
    var pager := new Pager(physSize, kernelEnd, boot, buf4k, bufUser, bufCore, bufVirt);
    heap := new Heap.Init(ram, pager, slabCache);
    PagesLeft(heap);
  }

  /** The virtual pool has a free page exactly while the heap uses fewer pages than there are. */
  lemma PagesLeft(heap: Heap)
    requires heap.Valid()
    ensures HasRun(heap.pager.Snapshot().virt, 1) <==> |HM.Pages(heap.st)| < heap.pager.geo.pages
  {
    hide Rep;
    RoomForPage(heap.pager);
  }

  /** The kernel image, with the caches in it, lies below the virtual pool. */
  lemma CachesBelowPool(physSize: nat, kernelEnd: nat, slabCache: nat)
    requires Bootable(physSize, kernelEnd) && slabCache + 64 * SLAB_CACHE_SIZE <= kernelEnd
    ensures var g := Boot.BootGeo(physSize, kernelEnd);
            slabCache + 64 * SLAB_CACHE_SIZE <= g.virtStart
            && (SLAB_CACHE_SIZE <= g.pages <==> 42 <= InitMemory(physSize, kernelEnd).totalPages)
            && (SLAB_CACHE_SIZE < g.pages <==> 63 <= InitMemory(physSize, kernelEnd).totalPages)
  {
    FewCorePages(physSize, kernelEnd);
    PoolsPartitionMemory(physSize, kernelEnd);
    hide InitMemory, RoomAboveKernel;
  }

  // ---- slab_init ----

  ghost function EmptyHeap(): HM.State {
    HM.State(map[], seq(SLAB_CACHE_SIZE, _ => []), seq(SLAB_CACHE_SIZE, _ => 0), {})
  }

  /** The first i caches are set up, with one slab each; nothing is live. */
  ghost predicate Booting(m: Cells, base: nat, h: HM.State, i: nat) {
    HM.Inv(h) && Above(base, h) && SlabsOk(m, h) && h.large == {}
    && (forall b :: b in h.slabs ==> h.slabs[b].cls < i && h.slabs[b].live == {})
    && (forall c: nat :: c < i && c < SLAB_CACHE_SIZE ==> CacheOk(m, base, h, c))
    && (forall c: nat :: i <= c < SLAB_CACHE_SIZE ==> h.lists[c] == [] && h.totals[c] == 0)
    && OneSlabEach(h, i)
  }

  ghost predicate OneSlabEach(h: HM.State, i: nat) {
    forall c: nat :: c < i && c < SLAB_CACHE_SIZE ==> OneSlab(h, c)
  }

  lemma BootOneSlab(h: HM.State, c: nat, b: nat)
    requires HM.Inv(h) && c < SLAB_CACHE_SIZE && b !in HM.Pages(h) && OneSlabEach(h, c)
    requires h.lists[c] == [] && h.totals[c] == 0
    requires forall p :: p in h.slabs ==> h.slabs[p].cls < c
    ensures OneSlabEach(HM.AddSlab(h, c, b), c + 1)
  {
    var h' := HM.AddSlab(h, c, b);
    hide Total, HM.ItemSeq, HM.SlabOk, HM.ListOk;
    forall d: nat | d < c + 1 && d < SLAB_CACHE_SIZE ensures OneSlab(h', d) {
      AddClassSlabs(h, c, b, d);
      if d < c {
        assert OneSlab(h, d);
        var p :| p in h.slabs && h.slabs[p].live == {} && h.lists[d] == [p] && ClassSlabs(h, d) == {p};
        assert p in h'.slabs && h'.slabs[p].live == {} && h'.lists[d] == [p] && ClassSlabs(h', d) == {p};
      } else {
        assert ClassSlabs(h, c) == {};
        assert b in h'.slabs && h'.slabs[b].live == {} && h'.lists[c] == [b] && ClassSlabs(h', c) == {b};
      }
    }
  }

  /** slab_size and the empty slab list of a cache. */
  ghost predicate CacheReady(m0: Cells, m1: Cells, base: nat, c: nat) {
    Rd(m1, CacheAddr(base, c)) == SizeOf(c) && IsList(m1, SlabList(base, c), [])
    && SameOutside(m0, m1, CacheAddr(base, c), CacheAddr(base, c) + 64)
  }

  /** ... and its first slab, not yet linked. */
  ghost predicate FirstSlabUnlinked(m0: Cells, m2: Cells, base: nat, c: nat, b: nat)
    requires c < SLAB_CACHE_SIZE
  {
    Rd(m2, CacheAddr(base, c)) == SizeOf(c) && IsList(m2, SlabList(base, c), [])
    && SlabRep(m2, b, NewSlab(b, c))
    && forall a: nat :: !(CacheAddr(base, c) <= a < CacheAddr(base, c) + 64) && !(b <= a < b + PAGE_SIZE) ==>
                          Rd(m2, a) == Rd(m0, a)
  }

  lemma FirstSlabReady(m0: Cells, m1: Cells, m2: Cells, base: nat, h: HM.State, c: nat, b: nat)
    requires c < SLAB_CACHE_SIZE && base + 64 * SLAB_CACHE_SIZE <= b
    requires CacheReady(m0, m1, base, c) && InPage(m1, m2, b) && SlabRep(m2, b, NewSlab(b, c))
    ensures FirstSlabUnlinked(m0, m2, base, c, b)
  {
    hide SlabRep, SizeOf, IsList, NewSlab;
    forall n, a: nat | n in Chain(SlabList(base, c), []) && InNode(a, n) ensures Rd(m2, a) == Rd(m1, a) {}
    hide Chain;
    ListFrame(m1, m2, SlabList(base, c), []);
  }

  lemma FirstSlabFresh(m0: Cells, m2: Cells, base: nat, c: nat, b: nat)
    requires c < SLAB_CACHE_SIZE && base + 64 * SLAB_CACHE_SIZE <= b && FirstSlabUnlinked(m0, m2, base, c, b)
    ensures IsList(m2, SlabList(base, c), []) && FreshNode(SlabList(base, c), [], b)
  {
    hide IsList, SlabRep, SizeOf;
  }

  lemma FirstSlabCount(m0: Cells, m2: Cells, m3: Cells, base: nat, c: nat, b: nat)
    requires c < SLAB_CACHE_SIZE && base + 64 * SLAB_CACHE_SIZE <= b && FirstSlabUnlinked(m0, m2, base, c, b)
    requires OnlyNodes(m2, m3, [SlabList(base, c), b, Chain(SlabList(base, c), [])[1]])
    ensures Rd(m3, b + 20) == Total(Exp(c)) && Rd(m3, b + 24) == Total(Exp(c)) && b + 24 != CacheAddr(base, c) + 4
    ensures forall a: nat :: !InNode(a, SlabList(base, c)) && !InNode(a, b) && !InNode(a, TailOf(SlabList(base, c)))
                             ==> Rd(m3, a) == Rd(m2, a)
  {
    hide IsList, SizeOf, Total, ItemAt;
    assert Chain(SlabList(base, c), [])[1] == TailOf(SlabList(base, c));
    hide Chain;
    ThreeNodes(m2, m3, SlabList(base, c), b, TailOf(SlabList(base, c)));
  }

  /** The stores of slab_init after slab_create. */
  lemma BootStep(m0: Cells, m2: Cells, m3: Cells, m4: Cells, base: nat, h: HM.State, c: nat, b: nat)
    requires Booting(m0, base, h, c) && c < SLAB_CACHE_SIZE && HM.PageBase(b) && b !in HM.Pages(h)
    requires base + 64 * SLAB_CACHE_SIZE <= b && FirstSlabUnlinked(m0, m2, base, c, b)
    requires IsList(m3, SlabList(base, c), [b] + [])
    requires OnlyNodes(m2, m3, [SlabList(base, c), b, Chain(SlabList(base, c), [])[1]])
    requires m4 == m3[CacheAddr(base, c) + 4 := Total(Exp(c))][CacheAddr(base, c) + 8 := Total(Exp(c))]
    ensures Booting(m4, base, HM.AddSlab(h, c, b), c + 1)
  {
    FirstSlabCount(m0, m2, m3, base, c, b);
    BootSlab(m0, m2, m3, m4, base, c, b);
    BootCache(m0, m2, m3, m4, base, c, b);
    BootOthers(m0, m2, m3, m4, base, c, b);
    hide IsList, SlabRep, OnlyNodes, Chain, SizeOf, Total, FirstSlabUnlinked, HM.ItemSeq;
    BootKeep(m0, m4, base, h, c, b);
  }

  lemma BootSlab(m0: Cells, m2: Cells, m3: Cells, m4: Cells, base: nat, c: nat, b: nat)
    requires c < SLAB_CACHE_SIZE && HM.PageBase(b) && base + 64 * SLAB_CACHE_SIZE <= b
    requires FirstSlabUnlinked(m0, m2, base, c, b)
    requires forall a: nat :: !InNode(a, SlabList(base, c)) && !InNode(a, b) && !InNode(a, TailOf(SlabList(base, c)))
                              ==> Rd(m3, a) == Rd(m2, a)
    requires m4 == m3[CacheAddr(base, c) + 4 := Total(Exp(c))][CacheAddr(base, c) + 8 := Total(Exp(c))]
    ensures SlabRep(m4, b, NewSlab(b, c))
  {
    NewSlabOk(b, c);
    hide IsList, Total, SizeOf, ItemAt, HM.SlabOk, SlabRep, NewSlab;
    SlabFrame(m2, m4, b, NewSlab(b, c));
  }

  lemma NewSlabOk(b: nat, c: nat)
    requires c < SLAB_CACHE_SIZE
    ensures HM.SlabOk(b, NewSlab(b, c)) && NewSlab(b, c).cls == c && NewSlab(b, c).live == {}
  {
    HM.ItemSeqNoDup(b, c, Total(Exp(c)));
  }

  lemma BootCache(m0: Cells, m2: Cells, m3: Cells, m4: Cells, base: nat, c: nat, b: nat)
    requires c < SLAB_CACHE_SIZE && base + 64 * SLAB_CACHE_SIZE <= b && FirstSlabUnlinked(m0, m2, base, c, b)
    requires IsList(m3, SlabList(base, c), [b] + [])
    requires forall a: nat :: !InNode(a, SlabList(base, c)) && !InNode(a, b) && !InNode(a, TailOf(SlabList(base, c)))
                              ==> Rd(m3, a) == Rd(m2, a)
    requires m4 == m3[CacheAddr(base, c) + 4 := Total(Exp(c))][CacheAddr(base, c) + 8 := Total(Exp(c))]
    ensures CacheRep(m4, base, c, [b], Total(Exp(c)), Total(Exp(c)))
  {
    assert [b] + [] == [b];
    TotalSmall(Exp(c));
    DivUnique(Total(Exp(c)), U32, 0, Total(Exp(c)));
    hide IsList, SlabRep, SizeOf, Total;
    CountersKeepList(m3, m4, base, c, [b]);
  }

  lemma BootOthers(m0: Cells, m2: Cells, m3: Cells, m4: Cells, base: nat, c: nat, b: nat)
    requires c < SLAB_CACHE_SIZE && base + 64 * SLAB_CACHE_SIZE <= b && FirstSlabUnlinked(m0, m2, base, c, b)
    requires forall a: nat :: !InNode(a, SlabList(base, c)) && !InNode(a, b) && !InNode(a, TailOf(SlabList(base, c)))
                              ==> Rd(m3, a) == Rd(m2, a)
    requires m4 == m3[CacheAddr(base, c) + 4 := Total(Exp(c))][CacheAddr(base, c) + 8 := Total(Exp(c))]
    ensures forall a: nat :: !(CacheAddr(base, c) <= a < CacheAddr(base, c) + 64) && !(b <= a < b + PAGE_SIZE) ==>
                               Rd(m4, a) == Rd(m0, a)
  {
    hide IsList, SlabRep, SizeOf, Total;
  }

  /** Nothing else has changed. */
  lemma BootKeep(m0: Cells, m4: Cells, base: nat, h: HM.State, c: nat, b: nat)
    requires Booting(m0, base, h, c) && c < SLAB_CACHE_SIZE && HM.PageBase(b) && b !in HM.Pages(h)
    requires base + 64 * SLAB_CACHE_SIZE <= b
    requires SlabRep(m4, b, NewSlab(b, c)) && CacheRep(m4, base, c, [b], Total(Exp(c)), Total(Exp(c)))
    requires forall a: nat :: !(CacheAddr(base, c) <= a < CacheAddr(base, c) + 64) && !(b <= a < b + PAGE_SIZE) ==>
                                Rd(m4, a) == Rd(m0, a)
    ensures Booting(m4, base, HM.AddSlab(h, c, b), c + 1)
  {
    var h' := HM.AddSlab(h, c, b);
    HM.AddSlabInv(h, c, b);
    AddPages(h, c, b);
    NewSlabOk(b, c);
    BootOneSlab(h, c, b);
    hide OneSlabEach, IsList, SlabRep, SizeOf, Total, CacheRep, HM.ItemSeq, HM.SlabOk, HM.ListOk;
    BootSlabs(m0, m4, base, h, c, b);
    hide SlabsOk, HM.Inv;
    assert Above(base, h');
    hide Above;
    BootCaches(m0, m4, base, h, c, b);
  }

  lemma BootSlabs(m0: Cells, m4: Cells, base: nat, h: HM.State, c: nat, b: nat)
    requires Booting(m0, base, h, c) && c < SLAB_CACHE_SIZE && HM.PageBase(b) && b !in HM.Pages(h)
    requires SlabRep(m4, b, NewSlab(b, c))
    requires forall a: nat :: !(CacheAddr(base, c) <= a < CacheAddr(base, c) + 64) && !(b <= a < b + PAGE_SIZE) ==>
                                Rd(m4, a) == Rd(m0, a)
    ensures SlabsOk(m4, HM.AddSlab(h, c, b))
  {
    var h' := HM.AddSlab(h, c, b);
    assert h'.slabs[b] == NewSlab(b, c);
    hide SlabRep, NewSlab, HM.ItemSeq, HM.Inv, CacheOk;
    forall p | p in h'.slabs ensures h'.slabs[p].cls < SLAB_CACHE_SIZE && SlabRep(m4, p, h'.slabs[p]) {
      if p != b {
        BootSlabKept(m0, m4, base, h, c, b, p);
      }
    }
  }

  lemma BootCaches(m0: Cells, m4: Cells, base: nat, h: HM.State, c: nat, b: nat)
    requires Booting(m0, base, h, c) && c < SLAB_CACHE_SIZE && HM.PageBase(b) && b !in HM.Pages(h)
    requires base + 64 * SLAB_CACHE_SIZE <= b
    requires CacheRep(m4, base, c, [b], Total(Exp(c)), Total(Exp(c)))
    requires forall a: nat :: !(CacheAddr(base, c) <= a < CacheAddr(base, c) + 64) && !(b <= a < b + PAGE_SIZE) ==>
                                Rd(m4, a) == Rd(m0, a)
    ensures forall d: nat :: d < c + 1 && d < SLAB_CACHE_SIZE ==> CacheOk(m4, base, HM.AddSlab(h, c, b), d)
  {
    var h' := HM.AddSlab(h, c, b);
    AddSlabSum(h, c, b);
    assert ClassSlabs(h, c) == {};
    hide CacheRep, Total, HM.ItemSeq, HM.SlabOk, HM.ListOk, SlabsOk, SizeOf, SlabRep, ClassSlabs;
    forall d: nat | d < c + 1 && d < SLAB_CACHE_SIZE ensures CacheOk(m4, base, h', d) {
      if d == c {
        assert h'.lists[c] == [b] && h'.totals[c] == Total(Exp(c));
      } else {
        BootCacheKept(m0, m4, base, h, c, b, d);
        OtherClassSum(h, h', c, b, d);
      }
    }
  }

  lemma BootSlabKept(m0: Cells, m4: Cells, base: nat, h: HM.State, c: nat, b: nat, p: nat)
    requires Booting(m0, base, h, c) && c < SLAB_CACHE_SIZE && HM.PageBase(b) && b != p && p in h.slabs
    requires forall a: nat :: !(CacheAddr(base, c) <= a < CacheAddr(base, c) + 64) && !(b <= a < b + PAGE_SIZE) ==>
                                Rd(m4, a) == Rd(m0, a)
    ensures h.slabs[p].cls < SLAB_CACHE_SIZE && SlabRep(m4, p, h.slabs[p])
  {
    assert HM.SlabOk(p, h.slabs[p]) && p in HM.Pages(h);
    PagesApart(p, b);
    hide HM.Inv, HM.SlabOk, SlabRep, CacheOk;
    SlabFrame(m0, m4, p, h.slabs[p]);
  }

  lemma BootCacheKept(m0: Cells, m4: Cells, base: nat, h: HM.State, c: nat, b: nat, d: nat)
    requires Booting(m0, base, h, c) && c < SLAB_CACHE_SIZE && HM.PageBase(b) && b !in HM.Pages(h) && d < c
    requires base + 64 * SLAB_CACHE_SIZE <= b
    requires forall a: nat :: !(CacheAddr(base, c) <= a < CacheAddr(base, c) + 64) && !(b <= a < b + PAGE_SIZE) ==>
                                Rd(m4, a) == Rd(m0, a)
    ensures CacheOk(m4, base, h, d)
  {
    assert HM.ListOk(h, d) && CacheOk(m0, base, h, d);
    forall x | x in h.lists[d] ensures Agree(m0, m4, x, x + 16) {
      assert x in HM.Pages(h);
      HeldPageBase(h, x);
      PagesApart(x, b);
    }
    hide HM.Inv, SlabRep, CacheRep, Booting;
    CacheKeptBy(m0, m4, base, h, d);
  }

  lemma BootLengths(m: Cells, base: nat, h: HM.State, c: nat)
    requires Booting(m, base, h, c) && c < SLAB_CACHE_SIZE
    ensures c < |h.lists| && c < |h.totals| && h.lists[c] == []
  {}

  lemma BootPages(h: HM.State, c: nat, b: nat)
    requires c < SLAB_CACHE_SIZE && c < |h.lists| && c < |h.totals| && b !in HM.Pages(h)
    ensures HM.Pages(HM.AddSlab(h, c, b)) == HM.Pages(h) + {b}
    ensures |HM.Pages(HM.AddSlab(h, c, b))| == |HM.Pages(h)| + 1
  {
    AddPages(h, c, b);
  }

  lemma BootStart(m: Cells, base: nat, g: Geo, s: View)
    requires Ones(s.virt) == {} && 0 < base
    ensures Booting(m, base, EmptyHeap(), 0)
    ensures HM.Pages(EmptyHeap()) == VirtPages(g, s) == {}
  {
    var h := EmptyHeap();
    forall c: nat | c < SLAB_CACHE_SIZE ensures HM.ListOk(h, c) {}
  }

  lemma RoomForPage(p: Pager)
    requires p.Valid()
    ensures HasRun(p.Snapshot().virt, 1) <==> |VirtPages(p.geo, p.Snapshot())| < p.geo.pages
  {
    var s := p.Snapshot();
    OnesBound(s.virt);
    VirtCount(p.geo, Ones(s.virt));
    hide GeoOk, TablesOk, Capacity, HasRun, Ones;
  }

  lemma {:induction false} VirtCount(g: Geo, ones: set<nat>)
    ensures |set i: nat | i in ones :: VPage(g, i)| == |ones|
  {
    if ones != {} {
      var x :| x in ones;
      VirtCount(g, ones - {x});
      PagesPlus(g, ones - {x}, x);
      assert ones - {x} + {x} == ones;
    }
  }

  /** slab_init of cache i gets a new page while the pool has one. Otherwise its slab is
      formatted over the slab of an earlier cache. */
  lemma CacheOnUsedPage(m: Cells, base: nat, h: HM.State, i: nat, g: Geo, s: View, idx: nat)
    requires Booting(m, base, h, i) && HM.Pages(h) == VirtPages(g, s) && Inv(g, s) && 0 < g.pages
    requires IsAllocIndex(s.virt, 1, idx)
    ensures var page := VPage(g, idx);
            if HasRun(s.virt, 1) then page !in HM.Pages(h) else page in h.slabs && h.slabs[page].cls < i
  {
    hide GeoOk, TablesOk, Capacity, Mapping, SlabsOk, CacheOk, HM.Inv, VirtPages;
    InvParts(g, s);
    AnsweredBit(s.virt, idx);
    UsedPage(g, s, idx);
  }

  /** A pool without any bit answers its first address to every call. */
  lemma NoPageAtAll(g: Geo, s: View, cnt: nat, idx: nat)
    requires Inv(g, s) && g.pages == 0 && 0 < cnt && IsAllocIndex(s.virt, cnt, idx)
    ensures VPage(g, idx) == g.virtStart
  {
    InvParts(g, s);
    assert !HasRun(s.virt, cnt);
  }

  // ---- where the first slabs lie ----

  /** Cache c has one slab, at b, with all its items free and in address order. */
  ghost predicate FreshSlab(h: HM.State, c: nat, b: nat)
    requires c < 16
  {
    c < |h.lists| && h.lists[c] == [b] && b in h.slabs && h.slabs[b].live == {}
    && EvenlySpaced(h.slabs[b].free, b + FIRST_ITEMS[c], ITEM_SIZES[c], ITEM_COUNTS[c])
  }

  /** The first n caches have their slabs on the first n pages from `start` on. */
  ghost predicate InRow(h: HM.State, start: nat, n: nat) {
    forall c: nat :: c < n && c < 16 ==> FreshSlab(h, c, start + c * 0x20_0000)
  }

  lemma EmptyRow(s: View)
    requires Ones(s.virt) == {}
    ensures Ones(s.virt) == Range(0, 0)
  {}

  lemma BootAligned(p: Pager)
    requires p.Valid()
    ensures p.geo.virtStart % PAGE_SIZE == 0
  {
    hide TablesOk, Capacity, Mapping;
  }

  lemma NextInRow(g: Geo, s: View, s': View, h: HM.State, i: nat, page: nat)
    requires i < 16 && Ones(s.virt) == Range(0, i) && TookPage(g, s, s', page) && g.virtStart % PAGE_SIZE == 0
    requires i < |h.lists| && i < |h.totals| && h.lists[i] == [] && InRow(h, g.virtStart, i)
    ensures Ones(s'.virt) == Range(0, i + 1) && InRow(HM.AddSlab(h, i, page), g.virtStart, i + 1)
  {
    var k: nat :| FirstRun(s.virt, k, 1) && s'.virt == SetRange(s.virt, k, 1, true) && page == VPage(g, k);
    FirstAfterRow(s.virt, i, k);
    SetOneOnes(s.virt, k);
    RangeGrows(0, i);
    hide FreshSlab, HM.AddSlab, Ones, SetRange, Range, FirstRun, InRow;
    RowGrows(h, g.virtStart, i, page);
  }

  lemma RowGrows(h: HM.State, start: nat, i: nat, page: nat)
    requires i < 16 && start % PAGE_SIZE == 0 && page == start + i * 0x20_0000
    requires i < |h.lists| && i < |h.totals| && h.lists[i] == [] && InRow(h, start, i)
    ensures InRow(HM.AddSlab(h, i, page), start, i + 1)
  {
    hide FreshSlab, HM.AddSlab;
    NewFreshSlab(h, i, page, start);
    var h' := HM.AddSlab(h, i, page);
    forall c: nat | c < i + 1 ensures FreshSlab(h', c, start + c * 0x20_0000) {
      if c < i {
        OtherFreshSlab(h, i, page, c, start + c * 0x20_0000);
      }
    }
  }

  lemma FirstAfterRow(bits: seq<bool>, i: nat, k: nat)
    requires Ones(bits) == Range(0, i) && FirstRun(bits, k, 1)
    ensures k == i
  {
    assert FreeRun(bits, k, 1) && k !in Ones(bits);
    if i < k {
      assert i !in Ones(bits);
      assert FreeRun(bits, i, 1);
    }
  }

  lemma NewFreshSlab(h: HM.State, c: nat, b: nat, start: nat)
    requires c < 16 && c < |h.lists| && c < |h.totals| && h.lists[c] == []
    requires start % PAGE_SIZE == 0 && b == start + c * 0x20_0000
    ensures FreshSlab(HM.AddSlab(h, c, b), c, b)
  {
    ModOfSum(start, c, 0x20_0000);
    SlabTable(b, c);
    ItemSizes(c);
    NewItems(b, c);
    hide Total, ItemAt, HM.ItemSeq, SizeOf, EvenlySpaced;
    assert [b] + h.lists[c] == [b];
  }

  lemma OtherFreshSlab(h: HM.State, c: nat, b: nat, d: nat, p: nat)
    requires c < 16 && c < |h.lists| && c < |h.totals| && d < 16 && d != c && p != b && FreshSlab(h, d, p)
    ensures FreshSlab(HM.AddSlab(h, c, b), d, p)
  {
    hide Total, HM.ItemSeq, EvenlySpaced;
  }

  /** The memory of the caches after init_memory, in numbers. */
  lemma CacheInNumbers(m: Cells, base: nat, h: HM.State, start: nat, c: nat)
    requires Rep(m, base, h) && InRow(h, start, 16) && c < 16 && OneSlab(h, c)
    ensures Rd(m, base + 64 * c) == ITEM_SIZES[c]
    ensures Rd(m, base + 64 * c + 4) == ITEM_COUNTS[c] && Rd(m, base + 64 * c + 8) == ITEM_COUNTS[c]
    ensures IsList(m, base + 64 * c + 16, [start + c * 0x20_0000])
  {
    var b := start + c * 0x20_0000;
    hide Rep, IsList, FreshSlab, ClassSlabs, FreeSum, CacheRep, OneSlab, HM.Inv;
    assert FreshSlab(h, c, b);
    CacheParts(m, base, h, c);
    CountsOfOne(h, c, b);
    ItemSizes(c);
    SmallCounts(c);
    hide SizeOf;
    CacheValues(m, base, c, b, ITEM_SIZES[c], ITEM_COUNTS[c]);
  }

  lemma SmallCounts(c: nat)
    requires c < 16
    ensures ITEM_COUNTS[c] < U32
  {}

  lemma CountsOfOne(h: HM.State, c: nat, b: nat)
    requires c < 16 && OneSlab(h, c) && FreshSlab(h, c, b)
    ensures c < |h.totals| && c < |h.lists| && h.lists[c] == [b]
    ensures h.totals[c] == ITEM_COUNTS[c] && FreeSum(h.slabs, ClassSlabs(h, c)) == ITEM_COUNTS[c]
  {
    SlabTable(0, c);
    hide Total, ClassSlabs, ItemAt;
    assert ClassSlabs(h, c) == {b};
    FreeSumSplit(h.slabs, {b}, b);
  }

  lemma CacheValues(m: Cells, base: nat, c: nat, b: nat, size: nat, count: nat)
    requires CacheRep(m, base, c, [b], count, count) && size == SizeOf(c) && count < 0x1_0000_0000
    ensures Rd(m, base + 64 * c) == size && IsList(m, base + 64 * c + 16, [b])
    ensures Rd(m, base + 64 * c + 4) == count && Rd(m, base + 64 * c + 8) == count
  {
    DivUnique(count, 0x1_0000_0000, 0, count);
    hide IsList, SizeOf;
  }

  /** The header of a slab in numbers, at any time. */
  lemma SlabInNumbers(m: Cells, base: nat, h: HM.State, b: nat)
    requires Rep(m, base, h) && b in h.slabs
    ensures var c := h.slabs[b].cls;
            c < 16 && Rd(m, b + 16) == ITEM_SIZES[c] && Rd(m, b + 20) == ITEM_COUNTS[c]
            && Rd(m, b + 24) == |h.slabs[b].free| && IsList(m, b + 32, h.slabs[b].free)
            && Rd(m, b + 64) == b + FIRST_ITEMS[c] && Rd(m, b + 72) == b + 0x20_0000 && Rd(m, b + 80) == 0x48_5848_0426
  {
    assert SlabRep(m, b, h.slabs[b]) && b in HM.Pages(h) && HM.PageBase(b);
    hide Rep, IsList, Total, SizeOf, ItemAt;
    SlabTable(b, h.slabs[b].cls);
    ItemSizes(h.slabs[b].cls);
  }

  /** The first kmalloc of each class after init_memory. */
  lemma FirstKmalloc(h: HM.State, start: nat, size: nat, page: nat, c: nat)
    requires HM.Inv(h) && InRow(h, start, 16) && c < 16 && size <= 0x10_0000 && IsBlockSize(size, ITEM_SIZES[c])
    ensures !NeedsPage(h, size)
    ensures HeapTheorems.Kmalloc(h, size, page).1 == start + c * 0x20_0000 + FIRST_ITEMS[c]
  {
    assert FreshSlab(h, c, start + c * 0x20_0000);
    assert |h.lists| == SLAB_CACHE_SIZE;
    hide HM.Inv, InRow, IsBlockSize, LeastClass, HeapTheorems.Kmalloc, SizeOf;
    ClassIs(size, c);
    ItemAnswered(h, size, page);
  }

  lemma LastSize()
    ensures SizeOf(16) / 2 == 0x10_0000
  {
    NextSize(15);
    SizeValues();
  }

  lemma NextSize(c: nat)
    ensures SizeOf(c + 1) == 2 * SizeOf(c)
  {}

  lemma BootEnd(m: Cells, base: nat, h: HM.State)
    requires Booting(m, base, h, SLAB_CACHE_SIZE)
    ensures Rep(m, base, h) && Safe(World(h, map[])) && OneSlabEach(h, SLAB_CACHE_SIZE)
  {
    hide SlabsOk, CacheOk, OneSlabEach;
    assert forall a, n :: !LiveBlock(h, a, n);
  }

  // ---- kfree ----

  /** From any address inside a live block, kfree's mask finds the page, the magic word
      is there exactly for slabs, and the size found there names the item's own cache. */
  lemma KfreeRoute(m: Cells, base: nat, h: HM.State, a: nat, n: nat, x: nat)
    requires Rep(m, base, h) && LiveBlock(h, a, n) && a <= x < a + n
    ensures var b := And(x, SLAB_MASK);
            b == AlignDown(a, PAGE_SIZE)
            && (Rd(m, b + 80) == SLAB_MAGIC <==> a !in h.large || Rd(m, a + 80) == SLAB_MAGIC)
            && (a in h.large ==> b == a && n == PAGE_SIZE)
            && (a !in h.large ==>
                  b in h.slabs && a in h.slabs[b].live && h.slabs[b].cls < SLAB_CACHE_SIZE
                  && n == SizeOf(h.slabs[b].cls) && Rd(m, b + 16) == n
                  && Ctz(n) >= Ctz(SLAB_START) && Ctz(n) - Ctz(SLAB_START) == h.slabs[b].cls)
  {
    RepInv(m, base, h);
    var b := AlignDown(a, PAGE_SIZE);
    BlockPage(h, a, n);
    PageOfAddress(b, x);
    if a !in h.large {
      assert b in h.slabs;
      assert HM.SlabOk(b, h.slabs[b]) && SlabRep(m, b, h.slabs[b]);
      ClassFromSize(h.slabs[b].cls);
    } else {
      LargeNotSlab(h, a, n);
    }
    hide HM.Inv, LiveBlock, And, AlignDown, Ctz, SizeOf, Total, ItemAt, IsList;
  }

  lemma LargeNotSlab(h: HM.State, a: nat, n: nat)
    requires HM.Inv(h) && a in h.large && LiveBlock(h, a, n)
    ensures AlignDown(a, PAGE_SIZE) == a && n == PAGE_SIZE
  {
    BlockPage(h, a, n);
    assert a in HM.Pages(h) && HM.PageBase(a);
    AlignInside(a, PAGE_SIZE, a);
  }

  lemma LargeDropped(m: Cells, base: nat, h: HM.State, a: nat)
    requires Rep(m, base, h) && a in h.large
    ensures Rep(m, base, h.(large := h.large - {a}))
    ensures HM.Pages(h.(large := h.large - {a})) == HM.Pages(h) - {a}
  {
    var h' := h.(large := h.large - {a});
    DropLargeBlock(h, a);
    assert a !in h.slabs;
    assert HM.Pages(h') == HM.Pages(h) - {a};
    AboveLess(base, h, h');
    hide HM.Inv, SlabRep, LiveBlock, CacheRep, FreeSum;
    forall c: nat | c < SLAB_CACHE_SIZE ensures CacheOk(m, base, h', c) {
      assert CacheOk(m, base, h, c);
      assert ClassSlabs(h', c) == ClassSlabs(h, c);
    }
  }

  lemma PageHeldLarge(h: HM.State, g: Geo, s: View, a: nat)
    requires a in h.large && HM.Pages(h) == VirtPages(g, s)
    ensures a in VirtPages(g, s)
  {}

  lemma StoreQuiet(m: Cells, base: nat, h: HM.State, a: nat, n: nat, x: nat, v: nat)
    requires Rep(m, base, h) && LiveBlock(h, a, n) && a <= x && x + 8 <= a + n
    ensures Rep(m[x := v], base, h) && Quiet(h, a, m, m[x := v])
  {
    RepInv(m, base, h);
    hide Rep, LiveBlock, HM.Inv;
    HeapQuiet.ClientStore(m, m[x := v], base, h, a, n);
    forall b: nat, k: nat, y: nat | LiveBlock(h, b, k) && b != a && b <= y < b + k
      ensures Rd(m[x := v], y) == Rd(m, y)
    {
      LiveBlocksDisjoint(h, a, n, b, k);
    }
  }

  // ---- slab_free ----

  /** The item is on its slab's free list and both counters are raised. */
  ghost predicate ItemPushed(m0: Cells, m2: Cells, base: nat, h: HM.State, b: nat, a: nat)
    requires b in h.slabs
  {
    var s := h.slabs[b];
    var c := s.cls;
    c < SLAB_CACHE_SIZE && c < |h.lists| && c < |h.totals|
    && SlabRep(m2, b, Given(s, a)) && OnlyCountersAndItems(m0, m2, base, c, b)
    && Rd(m2, b + 24) == |s.free| + 1 && Rd(m2, b + 20) == Total(Exp(c))
    && CacheRep(m2, base, c, h.lists[c], h.totals[c], FreeSum(h.slabs, ClassSlabs(h, c)) + 1)
  }

  /** What the pointer into a live item leads to. */
  lemma LiveItemFacts(m: Cells, base: nat, h: HM.State, b: nat, a: nat, addr: nat)
    requires Rep(m, base, h) && b in h.slabs && a in h.slabs[b].live
    requires a <= addr < a + SizeOf(h.slabs[b].cls)
    ensures var s := h.slabs[b];
            s.cls < SLAB_CACHE_SIZE && HM.SlabOk(b, s) && HM.PageBase(b) && SlabRep(m, b, s)
            && base + 64 * SLAB_CACHE_SIZE <= b && And(addr, SLAB_MASK) == b && Rd(m, b + 16) == SizeOf(s.cls)
            && SizeOf(s.cls) <= WORD_LIMIT && GetSlabItem(addr, SizeOf(s.cls)) == a
            && IsList(m, FreeList(b), s.free) && FreshNode(FreeList(b), s.free, a)
  {
    var s := h.slabs[b];
    assert HM.SlabOk(b, s) && b in HM.Pages(h) && SlabRep(m, b, s);
    hide HM.Inv, Rep, SlabsOk, IsList, FreshNode;
    FreshItem(b, s, a);
    assert a in HM.Items(b, s.cls);
    var i := HM.IsItem(b, s.cls, a);
    hide HM.Items, HM.SlabOk;
    MasksRecover(b, Exp(s.cls), i, addr);
  }

  lemma PushedState(m0: Cells, m1: Cells, base: nat, h: HM.State, c: nat, b: nat, a: nat)
    requires Rep(m0, base, h) && c < SLAB_CACHE_SIZE && b in h.slabs && h.slabs[b].cls == c && a in h.slabs[b].live
    requires IsList(m1, FreeList(b), [a] + h.slabs[b].free)
    requires OnlyNodes(m0, m1, [FreeList(b), a, Chain(FreeList(b), h.slabs[b].free)[1]])
    ensures ItemPushed(m0, CountedUp(m1, CacheAddr(base, c), b), base, h, b, a)
    ensures Quiet(h, a, m0, CountedUp(m1, CacheAddr(base, c), b))
  {
    var s := h.slabs[b];
    hide IsList, OnlyNodes, Chain, CountedUp, FreeSum, ClassSlabs, Quiet, HM.Items, Given, OnlyCountersAndItems,
         ListNodesOk, FreshNode, GetSlabItem, And, CacheRep;
    MinSizeOf(m0, base, h, b);
    LiveItemFacts(m0, base, h, b, a, a);
    RepParts(m0, base, h);
    CacheFields(m0, base, h, c);
    RepCaches(m0, base, h);
    FreeAbove(b, s);
    SlabRoom(b, s, a);
    ListNodesFine(m0, base, h, c, b);
    hide Rep, HM.Inv, Above;
    PushedFree(m0, m1, b, s, a);
    hide HM.SlabOk, SlabRep, Header;
    var list, total, free := h.lists[c], h.totals[c], FreeSum(h.slabs, ClassSlabs(h, c));
    hide ItemPushed;
    GivenCounters(m0, m1, base, c, b, s, a, list, total, free);
    PushedWhole(m0, CountedUp(m1, CacheAddr(base, c), b), base, h, c, b, a, list, total, free);
    PushQuiet(m0, m1, base, h, c, b, a);
  }

  lemma PushedWhole(m0: Cells, m2: Cells, base: nat, h: HM.State, c: nat, b: nat, a: nat,
                    list: seq<nat>, total: nat, free: nat)
    requires b in h.slabs && h.slabs[b].cls == c < SLAB_CACHE_SIZE && c < |h.lists| && c < |h.totals|
    requires list == h.lists[c] && total == h.totals[c] && free == FreeSum(h.slabs, ClassSlabs(h, c))
    requires SlabRep(m2, b, Given(h.slabs[b], a)) && OnlyCountersAndItems(m0, m2, base, c, b)
    requires Rd(m2, b + 24) == |h.slabs[b].free| + 1 && Rd(m2, b + 20) == Total(Exp(c))
    requires CacheRep(m2, base, c, list, total, free + 1)
    ensures ItemPushed(m0, m2, base, h, b, a)
  {
    hide SlabRep, Given, OnlyCountersAndItems, CacheRep, FreeSum, ClassSlabs, Total;
  }

  lemma MinSizeOf(m: Cells, base: nat, h: HM.State, b: nat)
    requires Rep(m, base, h) && b in h.slabs
    ensures 32 <= SizeOf(h.slabs[b].cls)
  {
    MinSize(h.slabs[b].cls);
  }

  lemma SlabRoom(b: nat, s: HM.Slab, a: nat)
    requires HM.SlabOk(b, s) && a in s.live
    ensures |s.free| < PAGE_SIZE && b + 32 <= a
  {
    HM.AllFree(b, s);
    TotalSmall(Exp(s.cls));
    FreeItemInPage(b, s.cls, a);
    assert s.live != {};
    hide Total;
  }

  lemma PushQuiet(m0: Cells, m1: Cells, base: nat, h: HM.State, c: nat, b: nat, a: nat)
    requires Rep(m0, base, h) && c < SLAB_CACHE_SIZE && b in h.slabs && h.slabs[b].cls == c && a in h.slabs[b].live
    requires OnlyNodes(m0, m1, [FreeList(b), a, Chain(FreeList(b), h.slabs[b].free)[1]])
    ensures Quiet(h, a, m0, CountedUp(m1, CacheAddr(base, c), b))
  {
    var free := h.slabs[b].free;
    var m2 := CountedUp(m1, CacheAddr(base, c), b);
    RepParts(m0, base, h);
    MinSize(c);
    assert LiveItem(h, b, a);
    assert LiveBlock(h, a, SizeOf(c));
    assert FreeList(b) in Chain(FreeList(b), free) && Chain(FreeList(b), free)[1] in Chain(FreeList(b), free);
    assert forall x: nat :: x != CacheAddr(base, c) + 8 && x != b + 24 ==> Rd(m2, x) == Rd(m1, x);
    hide Rep, HM.Inv, Quiet, Chain, OnlyNodes, SizeOf, Clear, CountedUp, LiveBlock, Above;
    FreeNodeClear(h, a, b, FreeList(b));
    FreeNodeClear(h, a, b, Chain(FreeList(b), free)[1]);
    SkippedClear(h, a, SizeOf(c));
    QuietThree(h, a, m0, m1, FreeList(b), a, Chain(FreeList(b), free)[1]);
    CountersQuiet(m1, m2, base, h, a, c, b);
    QuietTrans(h, a, m0, m1, m2);
  }

  lemma PushedFacts(m0: Cells, m2: Cells, base: nat, h: HM.State, c: nat, b: nat, a: nat)
    requires Rep(m0, base, h) && c < SLAB_CACHE_SIZE && b in h.slabs && h.slabs[b].cls == c
    requires a in h.slabs[b].live && ItemPushed(m0, m2, base, h, b, a)
    ensures Rd(m2, b + 24) == |h.slabs[b].free| + 1 && Rd(m2, b + 20) == Total(Exp(c))
    ensures c < |h.lists| && (b !in HM.GiveItem(h, b, a).slabs <==>
                              h.slabs[b].free != [] && |h.slabs[b].free| + 1 == Total(Exp(c)))
  {
    GiveItemShape(h, c, b, a);
    hide Rep, HM.GiveItem, SlabRep, CacheRep, OnlyCountersAndItems, Total;
  }

  lemma PushedPlain(m0: Cells, m2: Cells, base: nat, h: HM.State, c: nat, b: nat, a: nat)
    requires Rep(m0, base, h) && c < SLAB_CACHE_SIZE && b in h.slabs && h.slabs[b].cls == c
    requires a in h.slabs[b].live && ItemPushed(m0, m2, base, h, b, a)
    requires h.slabs[b].free != [] && |h.slabs[b].free| + 1 != Total(Exp(c))
    ensures Rep(m2, base, HM.GiveItem(h, b, a))
  {
    hide Rep, HM.GiveItem, SlabRep, CacheRep, OnlyCountersAndItems, Total, FreeSum, ClassSlabs, Given, HM.PageBase;
    SlabPlace(m0, base, h, b);
    GivenPlain(m0, m2, base, h, c, b, a);
  }

  lemma SlabPlace(m: Cells, base: nat, h: HM.State, b: nat)
    requires Rep(m, base, h) && b in h.slabs
    ensures HM.PageBase(b) && base + 64 * SLAB_CACHE_SIZE <= b
  {
    assert b in HM.Pages(h);
  }

  lemma RelinkReady(m0: Cells, m2: Cells, base: nat, h: HM.State, c: nat, b: nat, a: nat)
    requires Rep(m0, base, h) && c < SLAB_CACHE_SIZE && b in h.slabs && h.slabs[b].cls == c
    requires h.slabs[b].free == [] && ItemPushed(m0, m2, base, h, b, a)
    ensures c < |h.lists| && IsList(m2, SlabList(base, c), h.lists[c]) && FreshNode(SlabList(base, c), h.lists[c], b)
  {
    SlabPlace(m0, base, h, b);
    FirstIsNode(m0, base, h, c, b);
    hide Rep, IsList, SlabRep, FreshNode, OnlyCountersAndItems, FreeSum, Total, HM.PageBase;
    FreshSlabNode(m0, base, h, c, b);
  }

  lemma Relinked(m0: Cells, m2: Cells, m3: Cells, base: nat, h: HM.State, c: nat, b: nat, a: nat)
    requires Rep(m0, base, h) && c < SLAB_CACHE_SIZE && b in h.slabs && h.slabs[b].cls == c && a in h.slabs[b].live
    requires h.slabs[b].free == [] && ItemPushed(m0, m2, base, h, b, a)
    requires c < |h.lists| && IsList(m3, SlabList(base, c), [b] + h.lists[c])
    requires OnlyNodes(m2, m3, [SlabList(base, c), b, Chain(SlabList(base, c), h.lists[c])[1]])
    ensures Rep(m3, base, HM.GiveItem(h, b, a)) && Quiet(h, a, m2, m3)
  {
    hide Rep, IsList, SlabRep, FreshNode, OnlyCountersAndItems, FreeSum, ClassSlabs, Total, HM.PageBase, Chain,
         OnlyNodes, CacheRep, Given, HM.GiveItem, HM.Inv, Quiet, Clear, SlabList, CacheAddr;
    SlabPlace(m0, base, h, b);
    PushedParts(m0, m2, base, h, c, b, a);
    GivenPush(m0, m2, m3, base, h, c, b, a);
    RelinkQuiet(m0, m2, m3, base, h, c, b, a);
  }

  lemma PushedParts(m0: Cells, m2: Cells, base: nat, h: HM.State, c: nat, b: nat, a: nat)
    requires b in h.slabs && h.slabs[b].cls == c < SLAB_CACHE_SIZE && c < |h.lists| && c < |h.totals|
    requires ItemPushed(m0, m2, base, h, b, a)
    ensures SlabRep(m2, b, Given(h.slabs[b], a)) && OnlyCountersAndItems(m0, m2, base, c, b)
    ensures CacheRep(m2, base, c, h.lists[c], h.totals[c], FreeSum(h.slabs, ClassSlabs(h, c)) + 1)
  {
    hide SlabRep, Given, OnlyCountersAndItems, CacheRep, FreeSum, ClassSlabs;
  }

  lemma RelinkQuiet(m0: Cells, m2: Cells, m3: Cells, base: nat, h: HM.State, c: nat, b: nat, a: nat)
    requires Rep(m0, base, h) && c < SLAB_CACHE_SIZE && b in h.slabs && a in h.slabs[b].live && c < |h.lists|
    requires OnlyNodes(m2, m3, [SlabList(base, c), b, Chain(SlabList(base, c), h.lists[c])[1]])
    ensures Quiet(h, a, m2, m3)
  {
    var list := SlabList(base, c);
    RepInv(m0, base, h);
    assert list in Chain(list, h.lists[c]) && Chain(list, h.lists[c])[1] in Chain(list, h.lists[c]);
    hide Rep, Chain, OnlyNodes, HM.Inv, Quiet, Clear;
    SlabNodeClear(m0, base, h, a, c, list);
    SlabNodeClear(m0, base, h, a, c, Chain(list, h.lists[c])[1]);
    HeaderClear(h, a, b, b, 16);
    QuietThree(h, a, m2, m3, list, b, Chain(list, h.lists[c])[1]);
  }

  lemma UnlinkReady(m0: Cells, m2: Cells, base: nat, h: HM.State, c: nat, b: nat, a: nat) returns (k: nat)
    requires Rep(m0, base, h) && c < SLAB_CACHE_SIZE && b in h.slabs && h.slabs[b].cls == c
    requires h.slabs[b].free != [] && ItemPushed(m0, m2, base, h, b, a)
    ensures c < |h.lists| && IsList(m2, SlabList(base, c), h.lists[c]) && k < |h.lists[c]| && h.lists[c][k] == b
  {
    assert HM.ListOk(h, c) && b in h.lists[c];
    k :| 0 <= k < |h.lists[c]| && h.lists[c][k] == b;
  }

  lemma Unlinked(m0: Cells, m2: Cells, m3: Cells, base: nat, h: HM.State, c: nat, b: nat, a: nat, k: nat)
    requires Rep(m0, base, h) && c < SLAB_CACHE_SIZE && b in h.slabs && h.slabs[b].cls == c && a in h.slabs[b].live
    requires h.slabs[b].free != [] && ItemPushed(m0, m2, base, h, b, a) && |h.slabs[b].free| + 1 == Total(Exp(c))
    requires c < |h.lists| && k < |h.lists[c]| && h.lists[c][k] == b
    requires IsList(m3, SlabList(base, c), LinkedLists.RemoveAt(h.lists[c], k))
    requires OnlyNodes(m2, m3, [Chain(SlabList(base, c), h.lists[c])[k], Chain(SlabList(base, c), h.lists[c])[k + 2]])
    ensures var m4 := Subtracted(m3, CacheAddr(base, c), Total(Exp(c)));
            Rep(m4, base, HM.GiveItem(h, b, a)) && Quiet(h, a, m2, m4)
  {
    hide Rep, IsList, SlabRep, OnlyCountersAndItems, FreeSum, ClassSlabs, Total, HM.PageBase, Chain, OnlyNodes,
         CacheRep, Given, HM.GiveItem, HM.Inv, Quiet, Clear, Subtracted, LinkedLists.RemoveAt, Above, CacheAddr,
         SlabList;
    SlabPlace(m0, base, h, b);
    RepCaches(m0, base, h);
    PushedParts(m0, m2, base, h, c, b, a);
    GivenDrop(m0, m2, m3, base, h, c, b, a, k, h.lists[c], h.totals[c], FreeSum(h.slabs, ClassSlabs(h, c)) + 1);
    UnlinkQuiet(m0, m2, m3, base, h, c, b, a, k);
  }

  lemma UnlinkQuiet(m0: Cells, m2: Cells, m3: Cells, base: nat, h: HM.State, c: nat, b: nat, a: nat, k: nat)
    requires Rep(m0, base, h) && c < SLAB_CACHE_SIZE && b in h.slabs && a in h.slabs[b].live
    requires c < |h.lists| && k < |h.lists[c]|
    requires OnlyNodes(m2, m3, [Chain(SlabList(base, c), h.lists[c])[k], Chain(SlabList(base, c), h.lists[c])[k + 2]])
    ensures Quiet(h, a, m2, Subtracted(m3, CacheAddr(base, c), Total(Exp(c))))
  {
    var list, ca := SlabList(base, c), CacheAddr(base, c);
    var m4 := Subtracted(m3, ca, Total(Exp(c)));
    var p, n := Chain(list, h.lists[c])[k], Chain(list, h.lists[c])[k + 2];
    assert p in Chain(list, h.lists[c]) && n in Chain(list, h.lists[c]);
    assert SameOutside(m3, m4, ca, ca + 64);
    RepParts(m0, base, h);
    hide Rep, Total, Chain, OnlyNodes, HM.Inv, Quiet, Clear, Subtracted, Above;
    SlabNodeClear(m0, base, h, a, c, p);
    SlabNodeClear(m0, base, h, a, c, n);
    QuietTwo(h, a, m2, m3, p, n);
    LowClear(base, h, a, ca, 64);
    QuietRange(h, a, m3, m4, ca, 64);
    QuietTrans(h, a, m2, m3, m4);
  }

  lemma GivePagesExact(h: HM.State, b: nat, a: nat)
    requires HM.Inv(h) && b in h.slabs && h.slabs[b].cls < SLAB_CACHE_SIZE && h.slabs[b].cls < |h.lists|
    ensures var h' := HM.GiveItem(h, b, a);
            HM.Pages(h') == if b in h'.slabs then HM.Pages(h) else HM.Pages(h) - {b}
  {
    hide HM.SlabOk, HM.ListOk;
  }

  lemma PageIsHeld(h: HM.State, g: Geo, s: View, b: nat)
    requires b in h.slabs && HM.Pages(h) == VirtPages(g, s)
    ensures b in VirtPages(g, s)
  {}

  lemma QuietSame(h: HM.State, skip: nat, m: Cells)
    ensures Quiet(h, skip, m, m)
  {}

  lemma OnePage(size: nat)
    requires MAX_SLAB_SIZE < size <= PAGE_SIZE
    ensures (size + PAGE_SIZE - 1) / PAGE_SIZE == 1
  {}

  lemma SameClass(size: nat, c: nat)
    requires size <= MAX_SLAB_SIZE && LeastClass(size, c)
    ensures c == ClassOf(size)
  {
    hide SizeOf;
  }

  lemma LargeRep(m0: Cells, m1: Cells, m2: Cells, base: nat, h: HM.State, p: nat)
    requires Rep(m0, base, h) && HM.PageBase(p) && p !in HM.Pages(h) && base + 64 * SLAB_CACHE_SIZE <= p
    requires InPage(m0, m1, p) && SameOutside(m1, m2, p, p + PAGE_SIZE)
    ensures Rep(m2, base, h.(large := h.large + {p})) && Quiet(h, 0, m0, m2)
    ensures HM.Pages(h.(large := h.large + {p})) == HM.Pages(h) + {p}
  {
    CreatedSlab(m0, m1, base, h, 0, p);
    CreatedSlab(m1, m2, base, h, 0, p);
    hide Quiet, LiveBlock;
    QuietTrans(h, 0, m0, m1, m2);
    LargerRep(m2, base, h, p);
  }

  lemma LargerRep(m: Cells, base: nat, h: HM.State, p: nat)
    requires Rep(m, base, h) && HM.PageBase(p) && p !in HM.Pages(h) && base + 64 * SLAB_CACHE_SIZE <= p
    ensures Rep(m, base, h.(large := h.large + {p}))
    ensures HM.Pages(h.(large := h.large + {p})) == HM.Pages(h) + {p}
  {
    var h' := h.(large := h.large + {p});
    NewLargeBlock(h, p);
    hide HM.Inv, SlabRep, LiveBlock, CacheRep, FreeSum;
    forall c: nat | c < SLAB_CACHE_SIZE ensures CacheOk(m, base, h', c) {
      assert CacheOk(m, base, h, c);
      assert ClassSlabs(h', c) == ClassSlabs(h, c);
    }
  }

  lemma CacheListOf(m: Cells, base: nat, h: HM.State, c: nat)
    requires Rep(m, base, h) && c < SLAB_CACHE_SIZE
    ensures HM.Inv(h) && c < |h.lists| && IsList(m, SlabList(base, c), h.lists[c])
  {
    assert CacheOk(m, base, h, c);
  }

  lemma ReadyIs(h: HM.State, c: nat)
    requires HM.Inv(h) && c < SLAB_CACHE_SIZE
    ensures h.lists[c] != [] ==> Ready(h, c, 0) == h
  {}

  lemma GrownReady(h: HM.State, h1: HM.State, c: nat, page: nat)
    requires HM.Inv(h) && c < SLAB_CACHE_SIZE
    requires if h.lists[c] == [] then page !in HM.Pages(h) && HM.PageBase(page) && h1 == HM.AddSlab(h, c, page)
             else h1 == h
    ensures h1 == Ready(h, c, page) && c < |h1.lists| && h1.lists[c] != []
  {}

  /** What is quiet for the grown heap is quiet for the heap: a new slab has no live block. */
  lemma QuietGrown(h: HM.State, h1: HM.State, c: nat, page: nat, m0: Cells, m1: Cells, m2: Cells)
    requires HM.Inv(h) && c < SLAB_CACHE_SIZE
    requires if h.lists[c] == [] then page !in HM.Pages(h) && HM.PageBase(page) && h1 == HM.AddSlab(h, c, page)
             else h1 == h
    requires h.lists[c] == [] || m1 == m0
    requires h.lists[c] == [] ==> Quiet(h, 0, m0, m1)
    requires Quiet(h1, 0, m1, m2)
    ensures Quiet(h, 0, m0, m2)
  {
    if h.lists[c] == [] {
      AddSlabLive(h, c, page);
      hide HM.Inv, LiveBlock, HM.AddSlab;
      assert Quiet(h, 0, m1, m2);
      QuietTrans(h, 0, m0, m1, m2);
    }
  }

  // ---- slab_alloc ----

  /** After list_pop and memset: the item is gone from the free list and zero;
      nothing but the slab's free list and items has changed. */
  ghost predicate ItemPopped(m0: Cells, m2: Cells, base: nat, h: HM.State, c: nat)
    requires c < |h.lists| && c < SLAB_CACHE_SIZE && h.lists[c] != [] && h.lists[c][0] in h.slabs
    requires h.slabs[h.lists[c][0]].free != []
  {
    var b := h.lists[c][0];
    var s := h.slabs[b];
    SameOutside(m0, m2, b + 32, b + PAGE_SIZE) && Header(m2, b, c) && Rd(m2, b + 24) == |s.free|
    && IsList(m2, FreeList(b), s.free[1..]) && Zero(m2, s.free[0], s.free[0] + SizeOf(c))
  }

  lemma PagesAligned(b: nat)
    requires HM.PageBase(b)
    ensures b % PAGE_SIZE == 0
  {}

  lemma IsPopped(m0: Cells, m2: Cells, base: nat, h: HM.State, c: nat, b: nat, s: HM.Slab)
    requires c < |h.lists| && c < SLAB_CACHE_SIZE && h.lists[c] != [] && h.lists[c][0] == b && b in h.slabs
    requires h.slabs[b] == s && s.free != []
    requires SameOutside(m0, m2, b + 32, b + PAGE_SIZE) && Header(m2, b, c) && Rd(m2, b + 24) == |s.free|
    requires IsList(m2, FreeList(b), s.free[1..]) && Zero(m2, s.free[0], s.free[0] + SizeOf(c))
    ensures ItemPopped(m0, m2, base, h, c)
  {
    hide SameOutside, Header, IsList, Zero, SizeOf;
  }

  lemma LinkReady(m: Cells, base: nat, h: HM.State, c: nat, b: nat)
    requires Rep(m, base, h) && c < SLAB_CACHE_SIZE && HM.PageBase(b) && b !in HM.Pages(h)
    requires base + 64 * SLAB_CACHE_SIZE <= b
    ensures IsList(m, SlabList(base, c), h.lists[c]) && FreshNode(SlabList(base, c), h.lists[c], b)
  {
    assert CacheOk(m, base, h, c);
    if b in h.lists[c] {
      SlabNodes(m, base, h, c, b);
    }
    hide IsList, Rep;
    FreshSlabNode(m, base, h, c, b);
  }

  lemma CountDownFacts(m0: Cells, m2: Cells, base: nat, h: HM.State, c: nat, b: nat, s: HM.Slab)
    requires Rep(m0, base, h) && c < SLAB_CACHE_SIZE && h.lists[c] != [] && b == h.lists[c][0]
    requires b in h.slabs && s == h.slabs[b] && s.free != [] && ItemPopped(m0, m2, base, h, c)
    ensures Zero(m2, s.free[0], s.free[0] + SizeOf(c))
    ensures ListNodesOk(base, b, h.lists[c]) && HM.NoDup(h.lists[c])
    ensures var m4 := CountedDown(m2, CacheAddr(base, c), b);
            IsList(m4, SlabList(base, c), h.lists[c])
    ensures 1 <= FreeSum(h.slabs, ClassSlabs(h, c))
    ensures var m4 := CountedDown(m2, CacheAddr(base, c), b);
            SlabRep(m4, b, Taken(s)) && OnlyCountersAndItems(m0, m4, base, c, b) && Rd(m4, b + 24) == |s.free| - 1
            && CacheRep(m4, base, c, h.lists[c], h.totals[c], FreeSum(h.slabs, ClassSlabs(h, c)) - 1)
  {
    hide SlabRep, IsList, HM.Items, FreeSum, ClassSlabs, CountedDown, Header, Taken, OnlyCountersAndItems, Zero;
    TakenFacts(m0, base, h, c);
    TakenCountersDone(m0, m2, base, h, c, b, s);
    ListNodesFine(m0, base, h, c, b);
    assert HM.ListOk(h, c);
    hide Rep, IsList, HM.SlabOk;
  }

  lemma CacheFields(m: Cells, base: nat, h: HM.State, c: nat)
    requires Rep(m, base, h) && c < SLAB_CACHE_SIZE
    ensures CacheOk(m, base, h, c) && Rd(m, CacheAddr(base, c)) == SizeOf(c)
  {
    assert CacheOk(m, base, h, c);
  }

  lemma CreatedSlab(m0: Cells, m1: Cells, base: nat, h: HM.State, c: nat, b: nat)
    requires Rep(m0, base, h) && c < SLAB_CACHE_SIZE && HM.PageBase(b) && b !in HM.Pages(h)
    requires base + 64 * SLAB_CACHE_SIZE <= b && InPage(m0, m1, b)
    ensures Rep(m1, base, h) && Quiet(h, 0, m0, m1)
  {
    RepInv(m0, base, h);
    hide Rep, HM.Inv, HM.Pages, Quiet;
    ForeignPage(m0, m1, base, h, c, b);
    ForeignClear(h, 0, b);
    QuietRange(h, 0, m0, m1, b, PAGE_SIZE);
  }

  lemma LinkQuiet(m1: Cells, m2: Cells, base: nat, h: HM.State, c: nat, b: nat)
    requires Rep(m1, base, h) && c < SLAB_CACHE_SIZE && HM.PageBase(b) && b !in HM.Pages(h)
    requires OnlyNodes(m1, m2, [SlabList(base, c), b, Chain(SlabList(base, c), h.lists[c])[1]])
    ensures Quiet(h, 0, m1, Counted(m2, CacheAddr(base, c), Total(Exp(c))))
  {
    var list, ca, t := SlabList(base, c), CacheAddr(base, c), Total(Exp(c));
    RepParts(m1, base, h);
    assert list in Chain(list, h.lists[c]) && Chain(list, h.lists[c])[1] in Chain(list, h.lists[c]);
    assert SameOutside(m2, Counted(m2, ca, t), ca, ca + 16);
    hide Rep, HM.Inv, Quiet, Chain, OnlyNodes, Counted, Total, Above, Clear;
    SlabNodeClear(m1, base, h, 0, c, list);
    SlabNodeClear(m1, base, h, 0, c, Chain(list, h.lists[c])[1]);
    ForeignClear(h, 0, b);
    QuietThree(h, 0, m1, m2, list, b, Chain(list, h.lists[c])[1]);
    LowClear(base, h, 0, ca, 16);
    QuietRange(h, 0, m2, Counted(m2, ca, t), ca, 16);
    QuietTrans(h, 0, m1, m2, Counted(m2, ca, t));
  }

  lemma PopQuiet(m0: Cells, m1: Cells, m2: Cells, base: nat, h: HM.State, c: nat, b: nat)
    requires Rep(m0, base, h) && c < SLAB_CACHE_SIZE && b in h.slabs && h.slabs[b].free != [] && h.slabs[b].cls == c
    requires OnlyNodes(m0, m1, [FreeList(b), Chain(FreeList(b), h.slabs[b].free)[2]])
    requires SameOutside(m1, m2, h.slabs[b].free[0], h.slabs[b].free[0] + SizeOf(c))
    ensures Quiet(h, 0, m0, m2)
  {
    var free := h.slabs[b].free;
    RepInv(m0, base, h);
    assert FreeList(b) in Chain(FreeList(b), free) && Chain(FreeList(b), free)[2] in Chain(FreeList(b), free);
    hide Rep, HM.Inv, Quiet, Chain, OnlyNodes, SizeOf, Clear, SameOutside;
    FreeNodeClear(h, 0, b, FreeList(b));
    FreeNodeClear(h, 0, b, Chain(FreeList(b), free)[2]);
    QuietTwo(h, 0, m0, m1, FreeList(b), Chain(FreeList(b), free)[2]);
    FreeItemClear(h, 0, b, free[0]);
    QuietRange(h, 0, m1, m2, free[0], SizeOf(c));
    QuietTrans(h, 0, m0, m1, m2);
  }

  /** The counters of a cache and of a slab header. */
  lemma CountersQuiet(m: Cells, m': Cells, base: nat, h: HM.State, skip: nat, c: nat, b: nat)
    requires HM.Inv(h) && Above(base, h) && c < SLAB_CACHE_SIZE && b in h.slabs
    requires forall a: nat :: a != CacheAddr(base, c) + 8 && a != b + 24 ==> Rd(m', a) == Rd(m, a)
    ensures Quiet(h, skip, m, m')
  {
    hide HM.Inv, LiveBlock, Above;
    LowClear(base, h, skip, CacheAddr(base, c), 64);
    HeaderClear(h, skip, b, b + 24, 8);
  }

  lemma CountQuiet(m0: Cells, m2: Cells, m4: Cells, m5: Cells, base: nat, h: HM.State, c: nat, b: nat)
    requires Rep(m0, base, h) && c < SLAB_CACHE_SIZE && b in h.slabs
    requires m4 == CountedDown(m2, CacheAddr(base, c), b)
    requires h.lists[c] != [] && PoppedIfEmpty(m4, m5, base, c, h.slabs[b], h.lists[c])
    ensures Quiet(h, 0, m2, m5)
  {
    var list := SlabList(base, c);
    RepParts(m0, base, h);
    CountersQuiet(m2, m4, base, h, 0, c, b);
    if m5 != m4 {
      assert list in Chain(list, h.lists[c]) && Chain(list, h.lists[c])[2] in Chain(list, h.lists[c]);
      hide Rep, HM.Inv, Quiet, Chain, OnlyNodes, Clear, Above, CountedDown;
      SlabNodeClear(m0, base, h, 0, c, list);
      SlabNodeClear(m0, base, h, 0, c, Chain(list, h.lists[c])[2]);
      QuietTwo(h, 0, m4, m5, list, Chain(list, h.lists[c])[2]);
      QuietTrans(h, 0, m2, m4, m5);
    }
  }

  /** slab->total and slab->total_free are still readable after list_push. */
  lemma CreatedCount(m1: Cells, m2: Cells, base: nat, h: HM.State, c: nat, b: nat)
    requires Rep(m1, base, h) && c < SLAB_CACHE_SIZE && HM.PageBase(b) && b !in HM.Pages(h)
    requires base + 64 * SLAB_CACHE_SIZE <= b && SlabRep(m1, b, NewSlab(b, c))
    requires OnlyNodes(m1, m2, [SlabList(base, c), b, Chain(SlabList(base, c), h.lists[c])[1]])
    ensures Rd(m2, b + 20) == Total(Exp(c)) && Rd(m2, b + 24) == Total(Exp(c))
    ensures b + 20 != CacheAddr(base, c) + 4 && b + 24 != CacheAddr(base, c) + 4
  {
    GrownTouched(m1, m2, base, h, c, b);
    hide Rep, Total, OnlyNodes, IsList, SizeOf, ItemAt;
  }

  lemma SlabFreeList(m: Cells, b: nat, s: HM.Slab)
    requires s.cls < SLAB_CACHE_SIZE && SlabRep(m, b, s)
    ensures IsList(m, FreeList(b), s.free)
  {}

  /** cache->slab_size is untouched by list_pop on a free list. */
  lemma CacheSize(m0: Cells, m1: Cells, base: nat, h: HM.State, c: nat, b: nat, s: HM.Slab)
    requires Rep(m0, base, h) && c < SLAB_CACHE_SIZE && HM.SlabOk(b, s) && b % PAGE_SIZE == 0 && s.free != []
    requires base + 64 * SLAB_CACHE_SIZE <= b
    requires OnlyNodes(m0, m1, [FreeList(b), Chain(FreeList(b), s.free)[2]])
    ensures Rd(m1, CacheAddr(base, c)) == SizeOf(c)
  {
    CacheFields(m0, base, h, c);
    SecondIsNode(b, s);
    hide Rep, Chain, HM.SlabOk, CacheOk, SizeOf;
    TwoNodes(m0, m1, FreeList(b), Chain(FreeList(b), s.free)[2]);
  }

  lemma ItemAligned(b: nat, c: nat, a: nat)
    requires c < SLAB_CACHE_SIZE && HM.PageBase(b) && a in HM.Items(b, c)
    ensures SizeOf(c) <= WORD_LIMIT && GetSlabItem(a, SizeOf(c)) == a
  {
    var i := HM.IsItem(b, c, a);
    MasksRecover(b, Exp(c), i, a);
  }

  lemma TakenCountersDone(m0: Cells, m2: Cells, base: nat, h: HM.State, c: nat, b: nat, s: HM.Slab)
    requires Rep(m0, base, h) && c < SLAB_CACHE_SIZE && h.lists[c] != [] && b == h.lists[c][0]
    requires b in h.slabs && s == h.slabs[b] && s.free != [] && s.cls == c && HM.SlabOk(b, s)
    requires SameOutside(m0, m2, b + 32, b + PAGE_SIZE) && Header(m2, b, c)
    requires Rd(m2, b + 24) == |s.free| && IsList(m2, FreeList(b), s.free[1..])
    ensures 1 <= FreeSum(h.slabs, ClassSlabs(h, c))
    ensures var m4 := CountedDown(m2, CacheAddr(base, c), b);
            SlabRep(m4, b, Taken(s)) && OnlyCountersAndItems(m0, m4, base, c, b) && Rd(m4, b + 24) == |s.free| - 1
            && CacheRep(m4, base, c, h.lists[c], h.totals[c], FreeSum(h.slabs, ClassSlabs(h, c)) - 1)
  {
    hide SlabRep, IsList, HM.Items, FreeSum, CountedDown, Header, Rep, ListNodesOk, Taken, OnlyCountersAndItems, SizeOf,
         OneSlabStep, HM.TakeItem;
    TakenFacts(m0, base, h, c);
    assert HM.Inv(h) by { RepInv(m0, base, h); }
    hide HM.Inv;
    TakeItemSum(h, c);
    ListNodesFine(m0, base, h, c, b);
    FreeAbove(b, s);
    hide HM.SlabOk, ClassSlabs;
    TakenCounters(m0, m2, base, c, b, s, h.lists[c], h.totals[c], FreeSum(h.slabs, ClassSlabs(h, c)));
  }

  lemma RepInv(m: Cells, base: nat, h: HM.State)
    requires Rep(m, base, h)
    ensures HM.Inv(h)
  {}

  lemma FreeAbove(b: nat, s: HM.Slab)
    requires HM.SlabOk(b, s)
    ensures forall n :: n in s.free ==> b + 32 <= n
  {
    forall n | n in s.free ensures b + 32 <= n {
      assert n in HM.Elems(s.free);
      FreeItemInPage(b, s.cls, n);
    }
  }

  /** The item is still all zero at the end of slab_alloc. */
  lemma TakenZero(m2: Cells, m4: Cells, m5: Cells, base: nat, c: nat, b: nat, s: HM.Slab, list: seq<nat>)
    requires HM.SlabOk(b, s) && s.cls == c && s.free != [] && b % PAGE_SIZE == 0 && base + 64 * SLAB_CACHE_SIZE <= b
    requires Zero(m2, s.free[0], s.free[0] + SizeOf(c)) && m4 == CountedDown(m2, CacheAddr(base, c), b)
    requires PoppedIfEmpty(m4, m5, base, c, s, list) && ListNodesOk(base, b, list)
    requires list != [] && list[0] == b && HM.NoDup(list)
    ensures Zero(m5, s.free[0], s.free[0] + SizeOf(c))
  {
    PoppedCacheCells(m4, m5, base, c, b, s, list);
    assert s.free[0] in HM.Elems(s.free);
    FreeItemInPage(b, c, s.free[0]);
    var a := s.free[0];
    hide HM.SlabOk, PoppedIfEmpty, ListNodesOk, HM.NoDup, SizeOf;
    forall x: nat | a <= x < a + SizeOf(c) ensures Rd(m5, x) == 0 {
      assert Rd(m4, x) == Rd(m2, x);
      assert Rd(m5, x) == Rd(m4, x);
    }
  }

  // ---- formatting a slab ----

  ghost function NewSlab(b: nat, c: nat): HM.Slab
    requires c < SLAB_CACHE_SIZE
  {
    HM.Slab(c, HM.ItemSeq(b, c, Total(Exp(c))), {})
  }

  lemma NewSlabLaidOut(m: Cells, b: nat, c: nat)
    requires c < SLAB_CACHE_SIZE && HM.PageBase(b) && SlabRep(m, b, NewSlab(b, c))
    ensures LaidOut(m, b, SizeOf(c), NewSlab(b, c).free)
  {
    ItemsTight(b, Exp(c));
    NewItems(b, c);
    hide IsList, Total, ItemAt, Pow2, FirstBehindHeader, EvenlySpaced;
  }

  lemma NewItems(b: nat, c: nat)
    requires c < SLAB_CACHE_SIZE
    ensures EvenlySpaced(NewSlab(b, c).free, ItemAt(b, Exp(c), 0), SizeOf(c), Total(Exp(c)))
  {
    hide ItemAt, Total, Pow2;
    forall i: nat | i < Total(Exp(c)) ensures NewSlab(b, c).free[i] == ItemAt(b, Exp(c), 0) + i * SizeOf(c) {
      LastItem(b, Exp(c), i);
    }
  }

  lemma InPageTrans(m: Cells, m1: Cells, m2: Cells, b: nat)
    requires InPage(m, m1, b) && InPage(m1, m2, b)
    ensures InPage(m, m2, b)
  {}

  lemma HeaderStored(m0: Cells, m1: Cells, b: nat, c: nat)
    requires c < SLAB_CACHE_SIZE
    requires var t := Total(Exp(c));
             m1 == m0[b + 16 := SizeOf(c)][b + 64 := ItemAt(b, Exp(c), 0)][b + 72 := b + PAGE_SIZE]
                     [b + 20 := t][b + 24 := t][b + 80 := SLAB_MAGIC]
    ensures Header(m1, b, c) && Rd(m1, b + 24) == Total(Exp(c)) && InPage(m0, m1, b)
  {
    hide Total, SizeOf, ItemAt;
  }

  lemma SentinelsInPage(m1: Cells, m2: Cells, b: nat, c: nat)
    requires c < SLAB_CACHE_SIZE && Header(m1, b, c)
    requires OnlyNodes(m1, m2, [FreeList(b), TailOf(FreeList(b))])
    ensures Header(m2, b, c) && Rd(m2, b + 24) == Rd(m1, b + 24) && InPage(m1, m2, b)
  {
    hide Total, SizeOf, ItemAt;
    NotInNodes(m1, m2, [FreeList(b), TailOf(FreeList(b))]);
  }

  /** `OnlyNodes` for a list of nodes that a cell is compared with one by one. */
  lemma NotInNodes(m: Cells, m': Cells, nodes: seq<nat>)
    requires OnlyNodes(m, m', nodes)
    ensures |nodes| == 2 ==>
              forall a: nat :: !InNode(a, nodes[0]) && !InNode(a, nodes[1]) ==> Rd(m', a) == Rd(m, a)
    ensures |nodes| == 3 ==>
              forall a: nat :: !InNode(a, nodes[0]) && !InNode(a, nodes[1]) && !InNode(a, nodes[2]) ==>
                                 Rd(m', a) == Rd(m, a)
  {}

  /** The state of the carve loop with i items on the free list. */
  ghost predicate Carved(m0: Cells, m: Cells, b: nat, c: nat, i: nat)
    requires c < SLAB_CACHE_SIZE
  {
    Header(m, b, c) && Rd(m, b + 24) == Total(Exp(c))
    && IsList(m, FreeList(b), HM.ItemSeq(b, c, i)) && InPage(m0, m, b)
  }

  lemma CarveStart(m: Cells, b: nat, c: nat)
    requires c < SLAB_CACHE_SIZE && Header(m, b, c) && Rd(m, b + 24) == Total(Exp(c))
    requires IsList(m, FreeList(b), [])
    ensures Carved(m, m, b, c, 0)
  {
    hide IsList, Header;
    assert HM.ItemSeq(b, c, 0) == [];
  }

  lemma ItemOffset(b: nat, c: nat, i: nat)
    ensures ItemAt(b, Exp(c), 0) + i * SizeOf(c) == ItemAt(b, Exp(c), i)
  {
    Distribute(HeaderSlots(Exp(c)), i, SizeOf(c));
  }

  lemma Distribute(a: nat, b: nat, n: nat)
    ensures (a + b) * n == a * n + b * n
  {}

  lemma CarveFresh(b: nat, c: nat, i: nat)
    requires c < SLAB_CACHE_SIZE && i < Total(Exp(c))
    ensures FreshNode(FreeList(b), HM.ItemSeq(b, c, i), ItemAt(b, Exp(c), i))
    ensures b + SIZEOF_SLAB <= ItemAt(b, Exp(c), i) && ItemAt(b, Exp(c), i) + 32 <= b + PAGE_SIZE
  {
    MinSize(c);
    ItemInside(b, Exp(c), i);
    forall n | n in Chain(FreeList(b), HM.ItemSeq(b, c, i)) ensures Apart(ItemAt(b, Exp(c), i), n) {
      if n in HM.ItemSeq(b, c, i) {
        var j :| 0 <= j < i && HM.ItemSeq(b, c, i)[j] == n;
        ItemsApart(b, Exp(c), j, i);
      }
    }
  }

  lemma CarvedList(m0: Cells, m: Cells, b: nat, c: nat, i: nat)
    requires c < SLAB_CACHE_SIZE && Carved(m0, m, b, c, i)
    ensures IsList(m, FreeList(b), HM.ItemSeq(b, c, i))
  {}

  lemma CarveStep(m0: Cells, m: Cells, m': Cells, b: nat, c: nat, i: nat)
    requires c < SLAB_CACHE_SIZE && i < Total(Exp(c)) && Carved(m0, m, b, c, i)
    requires IsList(m', FreeList(b), HM.ItemSeq(b, c, i) + [ItemAt(b, Exp(c), i)])
    requires OnlyNodes(m, m', [Chain(FreeList(b), HM.ItemSeq(b, c, i))[i], ItemAt(b, Exp(c), i), TailOf(FreeList(b))])
    ensures Carved(m0, m', b, c, i + 1)
  {
    hide IsList, Total, SizeOf, ItemAt;
    var s := HM.ItemSeq(b, c, i);
    assert HM.ItemSeq(b, c, i + 1) == s + [ItemAt(b, Exp(c), i)];
    CarveFresh(b, c, i);
    LastInPage(b, c, i);
    hide HM.ItemSeq, Chain, FreshNode;
    NotInNodes(m, m', [Chain(FreeList(b), s)[i], ItemAt(b, Exp(c), i), TailOf(FreeList(b))]);
  }

  lemma LastInPage(b: nat, c: nat, i: nat)
    requires c < SLAB_CACHE_SIZE && i < Total(Exp(c))
    ensures var n := Chain(FreeList(b), HM.ItemSeq(b, c, i))[i];
            n == FreeList(b) || (b + SIZEOF_SLAB <= n && n + 32 <= b + PAGE_SIZE)
  {
    if i > 0 {
      CarveFresh(b, c, i - 1);
      assert Chain(FreeList(b), HM.ItemSeq(b, c, i))[i] == HM.ItemSeq(b, c, i)[i - 1];
    }
  }

  lemma CarveEnd(m0: Cells, m: Cells, b: nat, c: nat)
    requires c < SLAB_CACHE_SIZE && Carved(m0, m, b, c, Total(Exp(c)))
    ensures InPage(m0, m, b) && SlabRep(m, b, NewSlab(b, c))
  {
    hide IsList, Header, InPage, Total;
  }

  lemma PageAdded(g: Geo, s: View, s': View, idx: nat)
    requires Inv(g, s) && Inv(g, s') && Allocated(g, s, s', idx, 1)
    ensures HM.PageBase(VPage(g, idx)) && g.virtStart <= VPage(g, idx)
    ensures VPage(g, idx) !in VirtPages(g, s)
    ensures VirtPages(g, s') == VirtPages(g, s) + {VPage(g, idx)}
    ensures TookPage(g, s, s', VPage(g, idx))
  {
    VPageIsBase(g, idx);
    SetOneOnes(s.virt, idx);
    hide TablesOk, Capacity, Mapping, SetRange, OthersSame, Ones, GeoOk, HM.PageBase, FirstRun;
    PagesPlus(g, Ones(s.virt), idx);
  }

  lemma InvParts(g: Geo, s: View)
    requires Inv(g, s)
    ensures GeoOk(g) && |s.virt| == g.pages
  {}

  lemma AnsweredBit(bits: seq<bool>, idx: nat)
    requires IsAllocIndex(bits, 1, idx) && 0 < |bits|
    ensures idx < |bits| && (!bits[idx] <==> HasRun(bits, 1))
  {
    AllocAnswersFreeBits(bits, 1, idx);
  }

  lemma UsedPage(g: Geo, s: View, i: nat)
    requires i < |s.virt|
    ensures VPage(g, i) in VirtPages(g, s) <==> s.virt[i]
  {
    if VPage(g, i) in VirtPages(g, s) {
      var j: nat :| j in Ones(s.virt) && VPage(g, i) == VPage(g, j);
      assert i == j;
    }
  }

  lemma PagesPlus(g: Geo, ones: set<nat>, idx: nat)
    requires idx !in ones
    ensures VPage(g, idx) !in set i: nat | i in ones :: VPage(g, i)
    ensures (set i: nat | i in ones + {idx} :: VPage(g, i)) == (set i: nat | i in ones :: VPage(g, i)) + {VPage(g, idx)}
  {
    assert forall i: nat :: VPage(g, i) == VPage(g, idx) ==> i == idx;
  }

  lemma VPageIsBase(g: Geo, i: nat)
    requires GeoOk(g) && i < g.pages
    ensures HM.PageBase(VPage(g, i))
  {
    VPageAddress(g, i);
    MulMono(i + 1, g.pages, PAGE_SIZE);
  }

  lemma PageIndexOf(g: Geo, s: View, addr: nat, b: nat) returns (idx: nat)
    requires Inv(g, s) && b in VirtPages(g, s) && b <= addr < b + PAGE_SIZE
    ensures InVirt(g, addr) && PageIdx(g, addr) == idx && b == VPage(g, idx)
    ensures Range(PageIdx(g, addr), 1) <= Ones(s.virt)
  {
    idx :| idx in Ones(s.virt) && b == VPage(g, idx);
    hide TablesOk, Capacity, Mapping;
    DivUnique(addr - g.virtStart, PAGE_SIZE, idx, addr - b);
    MulMono(idx + 1, g.pages, PAGE_SIZE);
  }

  lemma PageDropped(g: Geo, s: View, s': View, idx: nat)
    requires Freed(g, s, s', idx, 1) && Range(idx, 1) <= Ones(s.virt)
    ensures VirtPages(g, s') == VirtPages(g, s) - {VPage(g, idx)}
  {
    ClearRangeOnes(s.virt, idx, 1);
    hide SetRange, OthersSame, AllUnmapped, Ones;
    assert Range(idx, 1) == {idx};
    assert forall i: nat :: VPage(g, i) == VPage(g, idx) ==> i == idx;
  }
}
