/** What `cache->total` counts: the items of all slabs that the cache ever had, although
    slabs come and go.
  */
module HeapTotals {
  import opened Words
  import opened Layout
  import opened LinkedLists
  import opened SlabGeometry
  import opened HeapModel
  import opened HeapTheorems
  import opened HeapMemory

  /** The number of items that the slabs of class c have now. */
  ghost function ItemCount(h: State, c: nat): nat
    requires c < SLAB_CACHE_SIZE
  {
    |ClassSlabs(h, c)| * Total(Exp(c))
  }

  /** The slabs of class c that a step takes away. */
  ghost function Vanished(h: State, h': State, c: nat): set<nat> {
    ClassSlabs(h, c) - ClassSlabs(h', c)
  }

  /** The number of slabs of class c released in the first n steps of a run. */
  ghost function Released(worlds: seq<World>, c: nat, n: nat): nat
    requires n < |worlds|
  {
    if n == 0 then 0
    else Released(worlds, c, n - 1) + |Vanished(worlds[n - 1].heap, worlds[n].heap, c)|
  }

  /** The cumulative count belongs to the slabs of now and r slabs released before. */
  ghost predicate Tally(h: State, c: nat, r: nat)
    requires c < SLAB_CACHE_SIZE
  {
    c < |h.totals| && h.totals[c] == (|ClassSlabs(h, c)| + r) * Total(Exp(c))
  }

  // ---- one step ----

  lemma AddTally(h: State, d: nat, b: nat, c: nat, r: nat)
    requires Inv(h) && d < SLAB_CACHE_SIZE && c < SLAB_CACHE_SIZE && b !in Pages(h) && Tally(h, c, r)
    ensures Tally(AddSlab(h, d, b), c, r) && Vanished(h, AddSlab(h, d, b), c) == {}
  {
    AddClassSlabs(h, d, b, c);
    hide Total, ClassSlabs, Inv, AddSlab, Tally, Vanished;
    MoreTally(h, AddSlab(h, d, b), b, c, r, c == d);
  }

  lemma MoreTally(h: State, h': State, b: nat, c: nat, r: nat, added: bool)
    requires c < SLAB_CACHE_SIZE && Tally(h, c, r) && c < |h'.totals|
    requires b !in ClassSlabs(h, c) && ClassSlabs(h', c) == ClassSlabs(h, c) + (if added then {b} else {})
    requires h'.totals[c] == h.totals[c] + (if added then Total(Exp(c)) else 0)
    ensures Tally(h', c, r) && Vanished(h, h', c) == {}
  {
    hide Total, ClassSlabs;
    NextSlot(|ClassSlabs(h, c)| + r, Total(Exp(c)));
  }

  lemma AddClassSlabs(h: State, d: nat, b: nat, c: nat)
    requires Inv(h) && d < SLAB_CACHE_SIZE && c < SLAB_CACHE_SIZE && b !in Pages(h)
    ensures var h' := AddSlab(h, d, b);
            b !in ClassSlabs(h, c) && ClassSlabs(h', c) == ClassSlabs(h, c) + (if c == d then {b} else {})
            && |h.totals| == |h'.totals| == SLAB_CACHE_SIZE
            && h'.totals[c] == h.totals[c] + (if c == d then Total(Exp(c)) else 0)
  {
    hide Total, ItemSeq, SlabOk, ListOk;
  }

  /** Steps inside slabs change neither the count nor the slabs. */
  lemma SameTally(h: State, h': State, c: nat, r: nat)
    requires c < SLAB_CACHE_SIZE && Tally(h, c, r) && h'.totals == h.totals && h'.slabs.Keys == h.slabs.Keys
    requires forall b :: b in h.slabs ==> h'.slabs[b].cls == h.slabs[b].cls
    ensures Tally(h', c, r) && ClassSlabs(h', c) == ClassSlabs(h, c)
  {
    assert ClassSlabs(h', c) == ClassSlabs(h, c);
    hide Total;
  }

  /** A released slab leaves the count as it is. */
  lemma LessTally(h: State, h': State, c: nat, r: nat, gone: set<nat>)
    requires c < SLAB_CACHE_SIZE && Tally(h, c, r) && h'.totals == h.totals
    requires gone <= ClassSlabs(h, c) && ClassSlabs(h', c) == ClassSlabs(h, c) - gone
    ensures Tally(h', c, r + |Vanished(h, h', c)|) && Vanished(h, h', c) == gone
  {
    hide Total, ClassSlabs;
    assert Vanished(h, h', c) == gone;
    assert |ClassSlabs(h', c)| + |gone| == |ClassSlabs(h, c)|;
  }

  lemma GiveTally(h: State, b: nat, a: nat, c: nat, r: nat)
    requires Inv(h) && b in h.slabs && a in h.slabs[b].live && c < SLAB_CACHE_SIZE && Tally(h, c, r)
    requires h.slabs[b].cls < SLAB_CACHE_SIZE
    ensures var h' := GiveItem(h, b, a);
            Tally(h', c, r + |Vanished(h, h', c)|)
            && Vanished(h, h', c) == if b !in h'.slabs && h.slabs[b].cls == c then {b} else {}
  {
    var h' := GiveItem(h, b, a);
    hide Tally, Vanished, ClassSlabs, Inv, GiveItem, Total;
    GiveSlabs(h, b, a, c);
    LessTally(h, h', c, r, if b !in h'.slabs && h.slabs[b].cls == c then {b} else {});
  }

  lemma GiveSlabs(h: State, b: nat, a: nat, c: nat)
    requires Inv(h) && b in h.slabs && h.slabs[b].cls < SLAB_CACHE_SIZE
    ensures var h' := GiveItem(h, b, a);
            var gone := if b !in h'.slabs && h.slabs[b].cls == c then {b} else {};
            h'.totals == h.totals && gone <= ClassSlabs(h, c) && ClassSlabs(h', c) == ClassSlabs(h, c) - gone
  {
    hide SlabOk, ListOk, Total;
  }

  lemma TakeTally(h: State, d: nat, c: nat, r: nat)
    requires Inv(h) && d < SLAB_CACHE_SIZE && c < SLAB_CACHE_SIZE && h.lists[d] != [] && Tally(h, c, r)
    ensures h.lists[d][0] in h.slabs && h.slabs[h.lists[d][0]].free != []
    ensures Tally(TakeItem(h, d), c, r) && ClassSlabs(TakeItem(h, d), c) == ClassSlabs(h, c)
  {
    TakeItemInv(h, d);
    hide Total, Inv;
    SameTally(h, TakeItem(h, d), c, r);
  }

  lemma KmallocTally(h: State, size: nat, page: nat, c: nat, r: nat)
    requires Inv(h) && size <= PAGE_SIZE && (NeedsPage(h, size) ==> page !in Pages(h) && PageBase(page))
    requires c < SLAB_CACHE_SIZE && Tally(h, c, r)
    ensures var h' := Kmalloc(h, size, page).0;
            Tally(h', c, r) && Vanished(h, h', c) == {}
  {
    assert |h.lists| == |h.totals| == SLAB_CACHE_SIZE;
    hide Total, Inv, SizeOf, Tally;
    if size > MAX_SLAB_SIZE {
      assert ClassSlabs(Kmalloc(h, size, page).0, c) == ClassSlabs(h, c);
      LargeTally(h, page, c, r);
    } else {
      var d := ClassOf(size);
      var h1 := Ready(h, d, page);
      if h.lists[d] == [] {
        AddTally(h, d, page, c, r);
      }
      TakeTally(h1, d, c, r);
    }
  }

  lemma LargeTally(h: State, page: nat, c: nat, r: nat)
    requires c < SLAB_CACHE_SIZE && Tally(h, c, r)
    ensures Tally(h.(large := h.large + {page}), c, r) && Tally(h.(large := h.large - {page}), c, r)
  {
    hide Total;
    SameTally(h, h.(large := h.large + {page}), c, r);
    SameTally(h, h.(large := h.large - {page}), c, r);
  }

  lemma KfreeTally(h: State, a: nat, c: nat, r: nat)
    requires Inv(h) && (exists n :: LiveBlock(h, a, n)) && c < SLAB_CACHE_SIZE && Tally(h, c, r)
    ensures Tally(Kfree(h, a), c, r + |Vanished(h, Kfree(h, a), c)|)
  {
    if a in h.large {
      LargeTally(h, a, c, r);
      assert ClassSlabs(Kfree(h, a), c) == ClassSlabs(h, c);
    } else {
      LiveItemPage(h, a);
      GiveTally(h, AlignDown(a, PAGE_SIZE), a, c, r);
    }
  }

  lemma StepTally(w: World, op: Op, w': World, c: nat, r: nat)
    requires Step(w, op, w') && c < SLAB_CACHE_SIZE && Tally(w.heap, c, r)
    ensures Tally(w'.heap, c, r + |Vanished(w.heap, w'.heap, c)|)
  {
    hide Inv, LiveBlock, Kmalloc, Kfree, NeedsPage, Tally, Vanished;
    match op
    case Malloc(size, page) => KmallocTally(w.heap, size, page, c, r);
    case Free(a) => KfreeTally(w.heap, a, c, r);
  }

  // ---- runs ----

  /** Over every run the count is the items of the slabs present and of those released. */
  lemma {:induction false} RunTally(worlds: seq<World>, ops: seq<Op>, c: nat, n: nat)
    requires |worlds| == |ops| + 1 && n < |worlds| && Safe(worlds[0])
    requires forall i :: 0 <= i < |ops| ==> Safe(worlds[i]) ==> Step(worlds[i], ops[i], worlds[i + 1])
    requires c < SLAB_CACHE_SIZE && Tally(worlds[0].heap, c, 0)
    ensures Safe(worlds[n]) && Tally(worlds[n].heap, c, Released(worlds, c, n))
  {
    hide Step, Safe, Tally, Vanished;
    if n > 0 {
      RunTally(worlds, ops, c, n - 1);
      StepSafe(worlds[n - 1], ops[n - 1], worlds[n]);
      StepTally(worlds[n - 1], ops[n - 1], worlds[n], c, Released(worlds, c, n - 1));
    }
  }

  // ---- the stored counter ----

  /** The 32-bit field is the number of carved items exactly if the items of the released
      slabs are a multiple of 2^32. */
  lemma StoredTotal(m: Cells, base: nat, h: State, c: nat, r: nat)
    requires Rep(m, base, h) && c < SLAB_CACHE_SIZE && Tally(h, c, r) && ItemCount(h, c) < U32
    ensures Rd(m, CacheAddr(base, c) + 4) == (ItemCount(h, c) + r * Total(Exp(c))) % 0x1_0000_0000
    ensures Rd(m, CacheAddr(base, c) + 4) == ItemCount(h, c) <==> r * Total(Exp(c)) % 0x1_0000_0000 == 0
  {
    StoredField(m, base, h, c);
    hide Rep, Total, ClassSlabs, CacheAddr;
    FieldCount(Rd(m, CacheAddr(base, c) + 4), h.totals[c], |ClassSlabs(h, c)|, r, Total(Exp(c)));
  }

  lemma FieldCount(field: nat, total: nat, k: nat, r: nat, t: nat)
    requires total == (k + r) * t && field == total % 0x1_0000_0000 && k * t < 0x1_0000_0000
    ensures field == (k * t + r * t) % 0x1_0000_0000
    ensures field == k * t <==> r * t % 0x1_0000_0000 == 0
  {
    SplitProduct(k, r, t);
    AddMod(k * t, r * t);
  }

  lemma StoredField(m: Cells, base: nat, h: State, c: nat)
    requires Rep(m, base, h) && c < SLAB_CACHE_SIZE
    ensures c < |h.totals| && Rd(m, CacheAddr(base, c) + 4) == h.totals[c] % 0x1_0000_0000
  {
    CacheParts(m, base, h, c);
  }

  lemma SplitProduct(k: nat, r: nat, t: nat)
    ensures (k + r) * t == k * t + r * t
  {}

  lemma AddMod(x: nat, y: nat)
    requires x < 0x1_0000_0000
    ensures (x + y) % 0x1_0000_0000 == x <==> y % 0x1_0000_0000 == 0
  {}

  /** Below 2^16 pages the carved items fit the counter. */
  lemma CountFits(h: State, c: nat)
    requires c < SLAB_CACHE_SIZE && |Pages(h)| <= 0x1_0000
    ensures ItemCount(h, c) < U32
  {
    SubsetCount(ClassSlabs(h, c), Pages(h));
    FewItems(c);
    hide Total, ClassSlabs;
    MulMono(|ClassSlabs(h, c)|, 0x1_0000, Total(Exp(c)));
  }

  lemma {:induction false} SubsetCount(a: set<nat>, b: set<nat>)
    requires a <= b
    ensures |a| <= |b|
  {
    if a != {} {
      var x :| x in a;
      SubsetCount(a - {x}, b - {x});
    }
  }

  lemma FewItems(c: nat)
    requires c < SLAB_CACHE_SIZE
    ensures 1 <= Total(Exp(c)) < 0x1_0000
  {
    Pow2Values();
    Pow2Mono(21 - Exp(c), 16);
    assert Pow2(16) == 0x1_0000;
    NeedsHeader(Exp(c));
    hide HeaderSlots, Pow2;
  }

  lemma NeedsHeader(k: nat)
    requires k <= MAX_EXP
    ensures 1 <= HeaderSlots(k)
  {
    HeaderFits(k);
  }

  // ---- the count goes wrong ----

  /** A class as init_memory leaves it: one slab, all of whose items are free. */
  ghost predicate OneSlab(h: State, c: nat)
    requires c < SLAB_CACHE_SIZE
  {
    c < |h.lists| && c < |h.totals| && h.totals[c] == Total(Exp(c))
    && exists b :: b in h.slabs && h.slabs[b].live == {} && h.lists[c] == [b] && ClassSlabs(h, c) == {b}
  }

  lemma OneSlabTally(h: State, c: nat)
    requires c < SLAB_CACHE_SIZE && OneSlab(h, c)
    ensures Tally(h, c, 0)
  {
    hide Total;
  }

  /** kmalloc of an item of such a class. */
  lemma TakeOneSlab(h: State, size: nat, page: nat, b: nat)
    requires Inv(h) && size <= MAX_SLAB_SIZE
    requires var c := ClassOf(size);
             b in h.slabs && h.slabs[b].live == {} && c < |h.lists| && h.lists[c] == [b] && h.slabs[b].cls == c
    ensures h.slabs[b].free != []
    ensures var (h1, a) := Kmalloc(h, size, page);
            h1 == TakeItem(h, ClassOf(size)) && a == h.slabs[b].free[0]
            && b in h1.slabs && h1.slabs[b].cls == ClassOf(size) && h1.slabs[b].live == {a}
  {
    hide LeastClass;
    TakeItemInv(h, ClassOf(size));
  }

  /** One kmalloc and one kfree are enough: the class has no slab any more, and its count
      is that of the slab that is gone. */
  lemma TotalOutlivesSlab(h: State, size: nat, page: nat)
    requires Inv(h) && size <= MAX_SLAB_SIZE && ClassOf(size) != SLAB_CACHE_SIZE - 1 && OneSlab(h, ClassOf(size))
    ensures var c := ClassOf(size);
            var (h1, a) := Kmalloc(h, size, page);
            Inv(h1) && LiveBlock(h1, a, BlockSize(size))
            && var h2 := Kfree(h1, a);
               Inv(h2) && ClassSlabs(h2, c) == {} && Tally(h2, c, 1)
  {
    var c := ClassOf(size);
    var b :| b in h.slabs && h.slabs[b].live == {} && h.lists[c] == [b] && ClassSlabs(h, c) == {b};
    assert b in ClassSlabs(h, c);
    OneSlabTally(h, c);
    KmallocEffect(h, size, page);
    TakeOneSlab(h, size, page, b);
    TakeTally(h, c, c, 0);
    var (h1, a) := Kmalloc(h, size, page);
    hide Inv, Total, LiveBlock, Kmalloc, BlockSize, NeedsPage, Tally, ClassSlabs, OneSlab, TakeItem, ClassOf;
    assert LiveBlock(h1, a, BlockSize(size));
    KfreeEffect(h1, a);
    LastItemFreed(h1, b, a, c);
  }

  lemma LastItemFreed(h: State, b: nat, a: nat, c: nat)
    requires Inv(h) && b in h.slabs && h.slabs[b].live == {a} && h.slabs[b].cls == c < SLAB_CACHE_SIZE - 1
    requires (exists n :: LiveBlock(h, a, n)) && Tally(h, c, 0) && ClassSlabs(h, c) == {b}
    ensures Tally(Kfree(h, a), c, 1) && ClassSlabs(Kfree(h, a), c) == {}
  {
    hide LiveBlock, Tally, Total, SizeOf;
    LiveIsItem(h, b, a);
    ItemBounds(h, b, a);
    if a in h.large {
      LargeIsNoItem(h, a, SizeOf(c)) by { assert LiveItem(h, b, a); }
      assert false;
    }
    PageReleased(h, b, a);
    GiveTally(h, b, a, c, 0);
    assert ClassSlabs(GiveItem(h, b, a), c) == {};
  }
}
