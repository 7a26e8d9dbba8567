/** kmalloc and kfree on the abstract heap, and what holds over every run of them. */
module HeapTheorems {
  import opened Words
  import opened Layout
  import opened SlabGeometry
  import opened HeapModel

  const MAX_SLAB_SIZE: nat := PAGE_SIZE / 2

  ghost function LeastFrom(size: nat, c: nat): (r: nat)
    requires c < SLAB_CACHE_SIZE && size <= SizeOf(SLAB_CACHE_SIZE - 1)
    requires forall d: nat :: d < c ==> SizeOf(d) < size
    ensures LeastClass(size, r)
    decreases SLAB_CACHE_SIZE - c
  {
    if size <= SizeOf(c) then c else LeastFrom(size, c + 1)
  }

  ghost function ClassOf(size: nat): (c: nat)
    requires size <= MAX_SLAB_SIZE
    ensures LeastClass(size, c)
  {
    SizeValues();
    LeastFrom(size, 0)
  }

  /** The call takes a fresh page: a large block, or a class without free items. */
  ghost predicate NeedsPage(h: State, size: nat)
    requires |h.lists| == SLAB_CACHE_SIZE
  {
    size > MAX_SLAB_SIZE || h.lists[ClassOf(size)] == []
  }

  /** kmalloc; `page` is the page that page_alloc answers if one is needed. */
  ghost function Kmalloc(h: State, size: nat, page: nat): (r: (State, nat))
    requires Inv(h) && (NeedsPage(h, size) ==> page !in Pages(h) && PageBase(page))
  {
    if size > MAX_SLAB_SIZE then (h.(large := h.large + {page}), page)
    else
      var c := ClassOf(size);
      var h1 := Ready(h, c, page);
      TakeItemInv(h1, c);
      (TakeItem(h1, c), h1.slabs[h1.lists[c][0]].free[0])
  }

  /** `a` is the first free item of the first slab on c's list, and h' the heap without it. */
  ghost predicate TakesFirst(h: State, c: nat, a: nat, h': State) {
    c < |h.lists| && h.lists[c] != [] && h.lists[c][0] in h.slabs && h.slabs[h.lists[c][0]].free != []
    && a == h.slabs[h.lists[c][0]].free[0] && h' == TakeItem(h, c)
  }

  ghost function Ready(h: State, c: nat, page: nat): (h1: State)
    requires Inv(h) && c < SLAB_CACHE_SIZE && (h.lists[c] == [] ==> page !in Pages(h) && PageBase(page))
    ensures Inv(h1) && h1.lists[c] != []
  {
    if h.lists[c] == [] then
      AddSlabInv(h, c, page);
      AddSlab(h, c, page)
    else h
  }

  /** Memory handed out and not freed: address and size of the block. */
  ghost predicate LiveBlock(h: State, a: nat, n: nat) {
    SlabLive(h, a, n) || (a in h.large && n == PAGE_SIZE)
  }

  ghost predicate SlabLive(h: State, a: nat, n: nat) {
    exists b :: b in h.slabs && LiveItem(h, b, a) && n == SizeOf(h.slabs[b].cls)
  }

  ghost predicate LiveItem(h: State, b: nat, a: nat)
    requires b in h.slabs
  {
    a in h.slabs[b].live
  }

  /** kfree of the block that starts at a. */
  ghost function Kfree(h: State, a: nat): State
    requires Inv(h) && exists n :: LiveBlock(h, a, n)
  {
    if a in h.large then h.(large := h.large - {a})
    else
      var b := AlignDown(a, PAGE_SIZE);
      LiveItemPage(h, a);
      GiveItem(h, b, a)
  }

  // ---- where blocks lie ----

  lemma ItemBounds(h: State, b: nat, a: nat)
    requires Inv(h) && b in h.slabs && a in Items(b, h.slabs[b].cls)
    ensures var n := SizeOf(h.slabs[b].cls);
            b + SIZEOF_SLAB <= a && a + n <= b + PAGE_SIZE && AlignDown(a, PAGE_SIZE) == b && PageBase(b)
  {
    assert SlabOk(b, h.slabs[b]) && b in Pages(h);
    var i := IsItem(b, h.slabs[b].cls, a);
    ItemInside(b, Exp(h.slabs[b].cls), i);
    hide ItemAt, Items, Inv, SlabOk;
    AlignInside(b, PAGE_SIZE, a);
  }

  lemma LiveIsItem(h: State, b: nat, a: nat)
    requires Inv(h) && b in h.slabs && (a in h.slabs[b].live || a in h.slabs[b].free)
    ensures h.slabs[b].cls < SLAB_CACHE_SIZE && a in Items(b, h.slabs[b].cls)
  {
    assert SlabOk(b, h.slabs[b]);
    assert a in Elems(h.slabs[b].free) + h.slabs[b].live;
  }

  lemma LiveItemPage(h: State, a: nat)
    requires Inv(h) && a !in h.large && exists n :: LiveBlock(h, a, n)
    ensures var b := AlignDown(a, PAGE_SIZE);
            b in h.slabs && a in h.slabs[b].live && h.slabs[b].cls < SLAB_CACHE_SIZE
  {
    var n :| LiveBlock(h, a, n);
    var b :| b in h.slabs && LiveItem(h, b, a) && n == SizeOf(h.slabs[b].cls);
    LiveIsItem(h, b, a);
    ItemBounds(h, b, a);
  }

  /** A live block lies in the page that its address aligns down to. */
  lemma BlockPage(h: State, a: nat, n: nat)
    requires Inv(h) && LiveBlock(h, a, n)
    ensures var b := AlignDown(a, PAGE_SIZE);
            b in Pages(h) && PageBase(b) && b <= a && a + n <= b + PAGE_SIZE && n > 0
            && (b in h.slabs ==> b + SIZEOF_SLAB <= a && a in h.slabs[b].live && n == SizeOf(h.slabs[b].cls))
            && (b !in h.slabs ==> a == b && b in h.large && n == PAGE_SIZE)
  {
    if a in h.large {
      assert a in Pages(h) && PageBase(a);
      AlignInside(a, PAGE_SIZE, a);
      assert a !in h.slabs;
      if exists b :: b in h.slabs && LiveItem(h, b, a) && n == SizeOf(h.slabs[b].cls) {
        var b :| b in h.slabs && LiveItem(h, b, a) && n == SizeOf(h.slabs[b].cls);
        LiveIsItem(h, b, a);
        ItemBounds(h, b, a);
        assert false;
      }
    } else {
      var b :| b in h.slabs && LiveItem(h, b, a) && n == SizeOf(h.slabs[b].cls);
      LiveIsItem(h, b, a);
      ItemBounds(h, b, a);
    }
  }

  predicate Disjoint(a: nat, n: nat, b: nat, k: nat) {
    a + n <= b || b + k <= a
  }

  lemma SlabItemsDisjoint(h: State, b: nat, x: nat, y: nat)
    requires Inv(h) && b in h.slabs && x != y && h.slabs[b].cls < SLAB_CACHE_SIZE
    requires x in Items(b, h.slabs[b].cls) && y in Items(b, h.slabs[b].cls)
    ensures var n := SizeOf(h.slabs[b].cls);
            Disjoint(x, n, y, n)
  {
    var k := Exp(h.slabs[b].cls);
    hide Inv, Items, Pow2, ItemAt, Disjoint;
    var i := IsItem(b, h.slabs[b].cls, x);
    var j := IsItem(b, h.slabs[b].cls, y);
    ItemsApartEither(b, k, i, j);
  }

  lemma ItemsApartEither(b: nat, k: nat, i: nat, j: nat)
    requires k <= MAX_EXP && i != j
    ensures Disjoint(ItemAt(b, k, i), Pow2(k), ItemAt(b, k, j), Pow2(k))
  {
    hide ItemAt, Pow2;
    if i < j {
      ItemsApart(b, k, i, j);
    } else {
      ItemsApart(b, k, j, i);
    }
  }

  /** Live blocks never overlap, and an address is the start of one block only. */
  lemma LiveBlocksDisjoint(h: State, a: nat, n: nat, a': nat, n': nat)
    requires Inv(h) && LiveBlock(h, a, n) && LiveBlock(h, a', n')
    ensures a != a' ==> Disjoint(a, n, a', n')
    ensures a == a' ==> n == n'
  {
    BlockPage(h, a, n);
    BlockPage(h, a', n');
    var b, b' := AlignDown(a, PAGE_SIZE), AlignDown(a', PAGE_SIZE);
    if b == b' && a != a' {
      LiveIsItem(h, b, a);
      LiveIsItem(h, b, a');
      hide Inv, Items, AlignDown, LiveBlock;
      SlabItemsDisjoint(h, b, a, a');
    } else if b != b' {
      hide Inv, LiveBlock, AlignDown, Pages;
      PagesApart(b, b');
    }
  }

  lemma PagesApart(b: nat, b': nat)
    requires b % PAGE_SIZE == 0 && b' % PAGE_SIZE == 0 && b != b'
    ensures Disjoint(b, PAGE_SIZE, b', PAGE_SIZE)
  {
    if b < b' {
      MultiplesApart(b, b', PAGE_SIZE);
    } else {
      MultiplesApart(b', b, PAGE_SIZE);
    }
  }

  /** A live block overlaps no slab header. */
  lemma LiveAvoidsHeaders(h: State, a: nat, n: nat, b: nat)
    requires Inv(h) && LiveBlock(h, a, n) && b in h.slabs
    ensures Disjoint(a, n, b, SIZEOF_SLAB)
  {
    BlockPage(h, a, n);
    assert b in Pages(h) && PageBase(b);
    hide Inv, LiveBlock;
    var p := AlignDown(a, PAGE_SIZE);
    hide AlignDown, Pages;
    if p != b {
      PagesApart(p, b);
    }
  }

  /** A live block overlaps no free item, so no free-list node. */
  lemma LiveAvoidsFreeItems(h: State, a: nat, n: nat, b: nat, f: nat)
    requires Inv(h) && LiveBlock(h, a, n) && b in h.slabs && f in h.slabs[b].free
    ensures Disjoint(a, n, f, SizeOf(h.slabs[b].cls))
  {
    BlockPage(h, a, n);
    assert SlabOk(b, h.slabs[b]) && f in Elems(h.slabs[b].free);
    LiveIsItem(h, b, f);
    ItemBounds(h, b, f);
    var p := AlignDown(a, PAGE_SIZE);
    if p == b {
      LiveIsItem(h, b, a);
      hide Inv, LiveBlock, Items, AlignDown, SlabOk;
      SlabItemsDisjoint(h, b, a, f);
    } else {
      hide Inv, LiveBlock, Items, AlignDown, SlabOk;
      PagesApart(p, b);
    }
  }

  /** Some live block or some slab header lies in the n bytes at `at`. */
  ghost predicate Collides(h: State, at: nat, n: nat) {
    (exists a, k :: LiveBlock(h, a, k) && !Disjoint(a, k, at, n))
    || exists b :: b in h.slabs && !Disjoint(b, SIZEOF_SLAB, at, n)
  }

  /** A page meets a live block or a slab header exactly if it is in use: a slab's page has
      its header, every other page in use is a live block. */
  lemma CollidesIffUsed(h: State, page: nat)
    requires Inv(h) && PageBase(page)
    ensures Collides(h, page, PAGE_SIZE) <==> page in Pages(h)
  {
    if page in h.large {
      assert LiveBlock(h, page, PAGE_SIZE) && !Disjoint(page, PAGE_SIZE, page, PAGE_SIZE);
    } else if page in h.slabs {
      assert !Disjoint(page, SIZEOF_SLAB, page, PAGE_SIZE);
    } else {
      forall a, k | LiveBlock(h, a, k) ensures Disjoint(a, k, page, PAGE_SIZE) {
        BlockPage(h, a, k);
        hide LiveBlock, Inv, AlignDown;
        PagesApart(AlignDown(a, PAGE_SIZE), page);
      }
      forall b | b in h.slabs ensures Disjoint(b, SIZEOF_SLAB, page, PAGE_SIZE) {
        assert b in Pages(h);
        hide LiveBlock, Inv;
        PagesApart(b, page);
      }
    }
  }

  // ---- the effect of one call ----

  /** The bytes that kmalloc really reserves for a request. */
  ghost function BlockSize(size: nat): (n: nat)
    requires size <= PAGE_SIZE
    ensures size <= n
  {
    if size > MAX_SLAB_SIZE then PAGE_SIZE else SizeOf(ClassOf(size))
  }

  lemma AddSlabLive(h: State, c: nat, b: nat)
    requires Inv(h) && c < SLAB_CACHE_SIZE && b !in Pages(h)
    ensures forall x, n :: LiveBlock(AddSlab(h, c, b), x, n) <==> LiveBlock(h, x, n)
  {
    assert c < |h.lists| && c < |h.totals|;
    hide Inv, ItemSeq, Total, LiveBlock;
    forall x, n ensures LiveBlock(AddSlab(h, c, b), x, n) <==> LiveBlock(h, x, n) {
      EmptySlabs(h, AddSlab(h, c, b), x, n);
    }
  }

  /** Slabs without live items hold no live block. */
  lemma EmptySlabs(h: State, h': State, x: nat, n: nat)
    requires h'.large == h.large
    requires forall p :: p in h.slabs ==> p in h'.slabs && h'.slabs[p] == h.slabs[p]
    requires forall p :: p in h'.slabs && p !in h.slabs ==> h'.slabs[p].live == {}
    ensures LiveBlock(h', x, n) <==> LiveBlock(h, x, n)
  {
    hide SizeOf;
    if SlabLive(h, x, n) {
      var p :| p in h.slabs && LiveItem(h, p, x) && n == SizeOf(h.slabs[p].cls);
      assert p in h'.slabs && LiveItem(h', p, x);
    }
    if SlabLive(h', x, n) {
      var p :| p in h'.slabs && LiveItem(h', p, x) && n == SizeOf(h'.slabs[p].cls);
      assert p in h.slabs && LiveItem(h, p, x);
    }
  }

  lemma TakeItemLive(h: State, c: nat)
    requires Inv(h) && c < SLAB_CACHE_SIZE && h.lists[c] != []
    ensures h.lists[c][0] in h.slabs && h.slabs[h.lists[c][0]].free != []
    ensures var a := h.slabs[h.lists[c][0]].free[0];
            (forall n :: !LiveBlock(h, a, n))
            && forall x, n :: LiveBlock(TakeItem(h, c), x, n) <==> LiveBlock(h, x, n) || (x == a && n == SizeOf(c))
  {
    assert ListOk(h, c) && h.lists[c][0] in h.lists[c];
    var b := h.lists[c][0];
    var a := h.slabs[b].free[0];
    FreeIsNotLive(h, b, a);
    var h' := TakeItem(h, c);
    forall x, n ensures LiveBlock(h', x, n) <==> LiveBlock(h, x, n) || (x == a && n == SizeOf(c)) {
      hide LiveItem;
      LiveItemStep(h, h', b, x, n);
      assert LiveItem(h', b, x) <==> LiveItem(h, b, x) || x == a by { TakeLiveItem(h, c, x); }
      hide TakeItem;
      assert LiveBlock(h', x, n) <==> LiveBlock(h, x, n) || (x == a && n == SizeOf(c));
    }
  }

  lemma TakeLiveItem(h: State, c: nat, x: nat)
    requires c < |h.lists| && h.lists[c] != [] && h.lists[c][0] in h.slabs && h.slabs[h.lists[c][0]].free != []
    ensures var b := h.lists[c][0];
            LiveItem(TakeItem(h, c), b, x) <==> LiveItem(h, b, x) || x == h.slabs[b].free[0]
  {}

  /** Two heaps that differ in one slab only differ in that slab's live blocks. */
  lemma LiveItemStep(h: State, h': State, b: nat, x: nat, n: nat)
    requires b in h.slabs && h'.large == h.large
    requires h'.slabs.Keys == h.slabs.Keys && h'.slabs[b].cls == h.slabs[b].cls
    requires forall p :: p in h.slabs && p != b ==> h'.slabs[p] == h.slabs[p]
    ensures LiveBlock(h', x, n) <==>
            (LiveItem(h', b, x) && n == SizeOf(h.slabs[b].cls)) || OtherLive(h, b, x, n)
    ensures LiveBlock(h, x, n) <==>
            (LiveItem(h, b, x) && n == SizeOf(h.slabs[b].cls)) || OtherLive(h, b, x, n)
  {
    hide SizeOf;
    if OtherLive(h, b, x, n) && !(x in h.large && n == PAGE_SIZE) {
      var p :| p in h.slabs && p != b && LiveItem(h, p, x) && n == SizeOf(h.slabs[p].cls);
      assert p in h'.slabs && LiveItem(h', p, x);
    }
    if SlabLive(h', x, n) {
      var p :| p in h'.slabs && LiveItem(h', p, x) && n == SizeOf(h'.slabs[p].cls);
      assert p != b ==> LiveItem(h, p, x);
    }
    if SlabLive(h, x, n) {
      var p :| p in h.slabs && LiveItem(h, p, x) && n == SizeOf(h.slabs[p].cls);
    }
  }

  ghost predicate OtherLive(h: State, b: nat, x: nat, n: nat) {
    (exists p :: p in h.slabs && p != b && LiveItem(h, p, x) && n == SizeOf(h.slabs[p].cls))
    || (x in h.large && n == PAGE_SIZE)
  }

  lemma FreeIsNotLive(h: State, b: nat, a: nat)
    requires Inv(h) && b in h.slabs && a in h.slabs[b].free
    ensures forall n :: !LiveBlock(h, a, n)
  {
    assert SlabOk(b, h.slabs[b]) && a in Elems(h.slabs[b].free);
    LiveIsItem(h, b, a);
    ItemBounds(h, b, a);
    forall n | LiveBlock(h, a, n) ensures false {
      BlockPage(h, a, n);
    }
  }

  /** kmalloc reserves one block that was not live, big enough, from the least
      class that fits, and no other block changes. */
  lemma KmallocEffect(h: State, size: nat, page: nat)
    requires Inv(h) && size <= PAGE_SIZE && (NeedsPage(h, size) ==> page !in Pages(h) && PageBase(page))
    ensures var (h', a) := Kmalloc(h, size, page);
            Inv(h') && (forall n :: !LiveBlock(h, a, n)) && size <= BlockSize(size)
            && (forall x, n :: LiveBlock(h', x, n) <==> LiveBlock(h, x, n) || (x == a && n == BlockSize(size)))
            && Pages(h') == if NeedsPage(h, size) then Pages(h) + {page} else Pages(h)
  {
    if size > MAX_SLAB_SIZE {
      NewLargeBlock(h, page);
    } else {
      var c := ClassOf(size);
      var h1 := Ready(h, c, page);
      if h.lists[c] == [] {
        AddSlabLive(h, c, page);
      }
      hide Inv, LiveBlock, AddSlab, LeastClass;
      TakeItemInv(h1, c);
      TakeItemLive(h1, c);
      TakePages(h1, c);
      if h.lists[c] == [] {
        AddPages(h, c, page);
      }
    }
  }

  lemma TakePages(h: State, c: nat)
    requires c < |h.lists| && h.lists[c] != [] && h.lists[c][0] in h.slabs && h.slabs[h.lists[c][0]].free != []
    ensures Pages(TakeItem(h, c)) == Pages(h)
  {}

  lemma FirstTaken(h: State, c: nat, a: nat)
    requires c < |h.lists| && h.lists[c] != [] && h.lists[c][0] in h.slabs && h.slabs[h.lists[c][0]].free != []
    requires a == h.slabs[h.lists[c][0]].free[0]
    ensures TakesFirst(h, c, a, TakeItem(h, c)) && Pages(TakeItem(h, c)) == Pages(h)
  {
    TakePages(h, c);
  }

  lemma AddPages(h: State, c: nat, b: nat)
    requires c < SLAB_CACHE_SIZE && c < |h.lists| && c < |h.totals|
    ensures Pages(AddSlab(h, c, b)) == Pages(h) + {b}
  {}

  lemma NewLargeBlock(h: State, page: nat)
    requires Inv(h) && page !in Pages(h) && PageBase(page)
    ensures var h' := h.(large := h.large + {page});
            Inv(h') && Pages(h') == Pages(h) + {page} && (forall n :: !LiveBlock(h, page, n))
            && forall x, n :: LiveBlock(h', x, n) <==> LiveBlock(h, x, n) || (x == page && n == PAGE_SIZE)
  {
    var h' := h.(large := h.large + {page});
    forall n | LiveBlock(h, page, n) ensures false {
      AlignInside(page, PAGE_SIZE, page);
      BlockPage(h, page, n);
    }
    forall c: nat | c < SLAB_CACHE_SIZE ensures ListOk(h', c) {
      assert ListOk(h, c);
    }
    hide ListOk, SlabOk;
    forall x, n ensures LiveBlock(h', x, n) <==> LiveBlock(h, x, n) || (x == page && n == PAGE_SIZE) {
      SameSlabs(h, h', x, n);
    }
  }

  lemma SameSlabs(h: State, h': State, x: nat, n: nat)
    requires h'.slabs == h.slabs
    ensures LiveBlock(h, x, n) <==> SlabLive(h, x, n) || (x in h.large && n == PAGE_SIZE)
    ensures LiveBlock(h', x, n) <==> SlabLive(h, x, n) || (x in h'.large && n == PAGE_SIZE)
  {
    if SlabLive(h, x, n) {
      var b :| b in h.slabs && LiveItem(h, b, x) && n == SizeOf(h.slabs[b].cls);
      assert LiveItem(h', b, x);
    }
    if LiveBlock(h', x, n) && !(x in h'.large && n == PAGE_SIZE) {
      var b :| b in h'.slabs && LiveItem(h', b, x) && n == SizeOf(h'.slabs[b].cls);
      assert LiveItem(h, b, x);
    }
  }

  /** kfree of a live block removes exactly that block. */
  lemma KfreeEffect(h: State, a: nat)
    requires Inv(h) && exists n :: LiveBlock(h, a, n)
    ensures Inv(Kfree(h, a))
    ensures forall x, n :: LiveBlock(Kfree(h, a), x, n) <==> LiveBlock(h, x, n) && x != a
    ensures Pages(Kfree(h, a)) <= Pages(h)
  {
    if a in h.large {
      DropLargeBlock(h, a);
    } else {
      LiveItemPage(h, a);
      var b := AlignDown(a, PAGE_SIZE);
      GiveItemInv(h, b, a);
      hide Inv, LiveBlock, AlignDown, GiveItem;
      GiveItemLive(h, b, a);
      GivePages(h, b, a);
    }
  }

  lemma GivePages(h: State, b: nat, a: nat)
    requires b in h.slabs && h.slabs[b].cls < SLAB_CACHE_SIZE && h.slabs[b].cls < |h.lists|
    ensures Pages(GiveItem(h, b, a)) <= Pages(h)
  {}

  lemma DropLargeBlock(h: State, a: nat)
    requires Inv(h) && a in h.large
    ensures var h' := h.(large := h.large - {a});
            Inv(h') && forall x, n :: LiveBlock(h', x, n) <==> LiveBlock(h, x, n) && x != a
  {
    var h' := h.(large := h.large - {a});
    forall c: nat | c < SLAB_CACHE_SIZE ensures ListOk(h', c) {
      assert ListOk(h, c);
    }
    forall x, n ensures LiveBlock(h', x, n) <==> LiveBlock(h, x, n) && x != a {
      SameSlabs(h, h', x, n);
      if x == a && SlabLive(h, x, n) {
        LiveBlocksDisjoint(h, a, n, a, PAGE_SIZE);
        BlockPage(h, a, n);
        LargeIsNoItem(h, a, n);
      }
    }
  }

  lemma LargeIsNoItem(h: State, a: nat, n: nat)
    requires Inv(h) && a in h.large
    ensures !SlabLive(h, a, n)
  {
    if SlabLive(h, a, n) {
      var b :| b in h.slabs && LiveItem(h, b, a) && n == SizeOf(h.slabs[b].cls);
      LiveIsItem(h, b, a);
      ItemBounds(h, b, a);
      assert a in Pages(h) && PageBase(a);
      AlignInside(a, PAGE_SIZE, a);
      assert false;
    }
  }

  lemma GiveItemLive(h: State, b: nat, a: nat)
    requires Inv(h) && b in h.slabs && a in h.slabs[b].live && h.slabs[b].cls < SLAB_CACHE_SIZE
    ensures forall x, n :: LiveBlock(GiveItem(h, b, a), x, n) <==> LiveBlock(h, x, n) && x != a
  {
    var s := h.slabs[b];
    var s' := s.(free := [a] + s.free, live := s.live - {a});
    var kept := h.(slabs := h.slabs[b := s']);
    var h' := GiveItem(h, b, a);
    assert SlabOk(b, s);
    GivenSlab(b, s, a);
    AllFree(b, s');
    assert |s'.free| == Total(Exp(s.cls)) ==> s'.live == {};
    assert h'.large == h.large;
    assert h'.slabs == kept.slabs || (h'.slabs == kept.slabs - {b} && kept.slabs[b].live == {});
    hide Inv, SlabOk, GiveItem, LiveBlock;
    forall x, n ensures LiveBlock(h', x, n) <==> LiveBlock(h, x, n) && x != a {
      GiveBlock(h, kept, h', b, a, x, n);
    }
  }

  lemma GiveBlock(h: State, kept: State, h': State, b: nat, a: nat, x: nat, n: nat)
    requires Inv(h) && b in h.slabs && a in h.slabs[b].live
    requires kept.slabs == h.slabs[b := h.slabs[b].(free := [a] + h.slabs[b].free, live := h.slabs[b].live - {a})]
    requires kept.large == h.large == h'.large
    requires h'.slabs == kept.slabs || (h'.slabs == kept.slabs - {b} && kept.slabs[b].live == {})
    ensures LiveBlock(h', x, n) <==> LiveBlock(h, x, n) && x != a
  {
    LiveItemStep(h, kept, b, x, n);
    OnlyInItsSlab(h, b, a, n);
    EmptySlabs(h', kept, x, n);
    assert LiveItem(kept, b, x) <==> LiveItem(h, b, x) && x != a;
    hide Inv, LiveItem, OtherLive, LiveBlock, SizeOf;
  }

  /** A live item of one slab is in no other slab and is no large block. */
  lemma OnlyInItsSlab(h: State, b: nat, a: nat, n: nat)
    requires Inv(h) && b in h.slabs && a in h.slabs[b].live
    ensures !OtherLive(h, b, a, n)
  {
    LiveIsItem(h, b, a);
    ItemBounds(h, b, a);
    if OtherLive(h, b, a, n) {
      if a in h.large {
        assert LiveItem(h, b, a);
        LargeIsNoItem(h, a, SizeOf(h.slabs[b].cls));
        assert false;
      } else {
        var p :| p in h.slabs && p != b && LiveItem(h, p, a) && n == SizeOf(h.slabs[p].cls);
        LiveIsItem(h, p, a);
        ItemBounds(h, p, a);
        assert false;
      }
    }
  }

  /** kfree of what kmalloc returned leaves exactly the blocks that were live before. */
  lemma KmallocThenKfree(h: State, size: nat, page: nat)
    requires Inv(h) && size <= PAGE_SIZE && (NeedsPage(h, size) ==> page !in Pages(h) && PageBase(page))
    ensures var (h1, a) := Kmalloc(h, size, page);
            Inv(h1) && LiveBlock(h1, a, BlockSize(size)) && Inv(Kfree(h1, a))
            && forall x, n :: LiveBlock(Kfree(h1, a), x, n) <==> LiveBlock(h, x, n)
  {
    hide Inv, LiveBlock, Kmalloc, Kfree, NeedsPage, BlockSize;
    KmallocEffect(h, size, page);
    var (h1, a) := Kmalloc(h, size, page);
    assert LiveBlock(h1, a, BlockSize(size));
    KfreeEffect(h1, a);
  }

  /** slab_free releases a slab's page exactly when the last live item is freed and the
      slab has more than one item: pages of the largest class are never given back. */
  lemma PageReleased(h: State, b: nat, a: nat)
    requires Inv(h) && b in h.slabs && a in h.slabs[b].live
    ensures var c := h.slabs[b].cls;
            c < SLAB_CACHE_SIZE
            && (b !in GiveItem(h, b, a).slabs <==> h.slabs[b].live == {a} && c != SLAB_CACHE_SIZE - 1)
  {
    var s := h.slabs[b];
    assert SlabOk(b, s);
    AllFree(b, s);
    OneItemClass(s.cls);
    hide Inv, SlabOk, Total;
    assert s.live == {a} + (s.live - {a});
  }

  // ---- which block a request gets ----

  /** The block size for a request: the least of the sixteen item sizes that is enough, and a
      whole page for a request above half a page. */
  ghost predicate IsBlockSize(size: nat, n: nat) {
    if size <= 0x10_0000
    then n in ITEM_SIZES && size <= n && forall k :: k in ITEM_SIZES && size <= k ==> n <= k
    else n == 0x20_0000
  }

  lemma BlockSizeIs(size: nat)
    requires size <= PAGE_SIZE
    ensures IsBlockSize(size, BlockSize(size))
  {
    if size <= 0x10_0000 {
      var c := ClassOf(size);
      ItemSizes(c);
      forall k | k in ITEM_SIZES && size <= k ensures ITEM_SIZES[c] <= k {
        var d :| 0 <= d < 16 && ITEM_SIZES[d] == k;
        ItemSizes(d);
        SizesGrow(c, d);
      }
    }
  }

  lemma SizesGrow(c: nat, d: nat)
    requires c < 16 && d < 16
    ensures ITEM_SIZES[c] <= ITEM_SIZES[d] <==> c <= d
  {}

  /** The class with the right item size is the class of the request. */
  lemma ClassIs(size: nat, c: nat)
    requires size <= 0x10_0000 && c < 16 && IsBlockSize(size, ITEM_SIZES[c])
    ensures c == ClassOf(size)
  {
    BlockSizeIs(size);
    ItemSizes(ClassOf(size));
    hide LeastClass, SizeOf;
    SizesGrow(c, ClassOf(size));
    SizesGrow(ClassOf(size), c);
  }

  /** The new block has the size that the request calls for. A request of up to half a page
      takes a page exactly if the list of its class is empty; otherwise the first free item
      of the first slab on that list is answered. A larger request always takes a page, and
      is answered with it. */
  lemma KmallocBlock(h: State, size: nat, page: nat, n: nat)
    requires Inv(h) && size <= PAGE_SIZE && (NeedsPage(h, size) ==> page !in Pages(h) && PageBase(page))
    requires IsBlockSize(size, n)
    ensures var (h', a) := Kmalloc(h, size, page);
            LiveBlock(h', a, n) && !LiveBlock(h, a, n)
            && (size > 0x10_0000 ==> a == page && Pages(h') == Pages(h) + {page})
            && forall c: nat :: c < 16 && n == ITEM_SIZES[c] && size <= 0x10_0000 ==>
                 if h.lists[c] == [] then Pages(h') == Pages(h) + {page} && a == page + FIRST_ITEMS[c]
                 else Pages(h') == Pages(h) && h.lists[c][0] in h.slabs && h.slabs[h.lists[c][0]].free != []
                      && a == h.slabs[h.lists[c][0]].free[0]
  {
    BlockSizeIs(size);
    SameBlockSize(size, n, BlockSize(size));
    KmallocEffect(h, size, page);
    hide LiveBlock, BlockSize, IsBlockSize, ClassOf, Pages;
    if size <= 0x10_0000 {
      forall c: nat | c < 16 && n == ITEM_SIZES[c] ensures c == ClassOf(size) {
        ClassIs(size, c);
      }
      ItemAnswered(h, size, page);
    }
  }

  lemma SameBlockSize(size: nat, n: nat, k: nat)
    requires IsBlockSize(size, n) && IsBlockSize(size, k)
    ensures n == k
  {}

  lemma ItemAnswered(h: State, size: nat, page: nat)
    requires Inv(h) && size <= 0x10_0000 && (NeedsPage(h, size) ==> page !in Pages(h) && PageBase(page))
    ensures var c, a := ClassOf(size), Kmalloc(h, size, page).1;
            c < 16 && (NeedsPage(h, size) <==> h.lists[c] == [])
            && if h.lists[c] == [] then a == page + FIRST_ITEMS[c]
               else h.lists[c][0] in h.slabs && h.slabs[h.lists[c][0]].free != []
                    && a == h.slabs[h.lists[c][0]].free[0]
  {
    var c := ClassOf(size);
    if h.lists[c] == [] {
      SlabTable(page, c);
      assert ItemSeq(page, c, Total(Exp(c)))[0] == ItemAt(page, Exp(c), 0);
    } else {
      TakeItemInv(h, c);
    }
    hide Inv, Total, ItemAt, LeastClass;
  }

  ghost function FirstOnList(h: State, c: nat): nat
    requires c < |h.lists|
  {
    if h.lists[c] == [] then 0 else h.lists[c][0]
  }

  /** A freed item is the next one of its class to be handed out if and only if its slab was
      full or first on the list; it is then put in front of all others. */
  lemma KfreeThenKmalloc(h: State, b: nat, a: nat, size: nat, page: nat)
    requires Inv(h) && b in h.slabs && a in h.slabs[b].live && b in GiveItem(h, b, a).slabs
    requires size <= 0x10_0000 && IsBlockSize(size, SizeOf(h.slabs[b].cls))
    ensures var c, h' := h.slabs[b].cls, GiveItem(h, b, a);
            c < |h.lists| && Inv(h') && !NeedsPage(h', size)
            && (Kmalloc(h', size, page).1 == a <==> h.slabs[b].free == [] || b == FirstOnList(h, c))
  {
    var c, h' := h.slabs[b].cls, GiveItem(h, b, a);
    assert SlabOk(b, h.slabs[b]) && ListOk(h, c);
    GiveItemInv(h, b, a);
    ItemSizes(c);
    ClassIs(size, c);
    GivenFirst(h, b, a);
    hide Inv, GiveItem, SizeOf, IsBlockSize, LeastClass;
    ItemAnswered(h', size, page);
    if h'.lists[c][0] != b {
      OtherSlabsItem(h', b, a, h'.lists[c][0]);
    }
  }

  lemma GivenFirst(h: State, b: nat, a: nat)
    requires Inv(h) && b in h.slabs && a in h.slabs[b].live && b in GiveItem(h, b, a).slabs
    ensures var c, h' := h.slabs[b].cls, GiveItem(h, b, a);
            c < SLAB_CACHE_SIZE && c < |h.lists| == |h'.lists| && h'.lists[c] != [] && h'.slabs[b].free[..1] == [a]
            && (h.slabs[b].free != [] ==> h.lists[c] != [])
            && (h'.lists[c][0] == b <==> h.slabs[b].free == [] || b == FirstOnList(h, c))
  {
    var c, h' := h.slabs[b].cls, GiveItem(h, b, a);
    assert SlabOk(b, h.slabs[b]) && ListOk(h, c) && b in Pages(h);
    AllFree(b, h.slabs[b]);
  }

  /** The items of another slab are other addresses. */
  lemma OtherSlabsItem(h: State, b: nat, a: nat, p: nat)
    requires Inv(h) && b in h.slabs && p in h.slabs && b != p && h.slabs[b].free != [] && h.slabs[b].free[0] == a
    ensures h.slabs[p].free != [] ==> h.slabs[p].free[0] != a
  {
    LiveIsItem(h, b, a);
    ItemBounds(h, b, a);
    if h.slabs[p].free != [] {
      LiveIsItem(h, p, h.slabs[p].free[0]);
      ItemBounds(h, p, h.slabs[p].free[0]);
    }
  }

  // ---- runs ----

  datatype Op = Malloc(size: nat, page: nat) | Free(a: nat)

  /** The heap and the client's own record of what it holds: address to requested size. */
  datatype World = World(heap: State, held: map<nat, nat>)

  /** kmalloc is asked for at most a page; kfree frees a held block. */
  ghost predicate Enabled(w: World, op: Op)
    requires Inv(w.heap)
  {
    match op
    case Malloc(size, page) =>
      size <= PAGE_SIZE && (NeedsPage(w.heap, size) ==> page !in Pages(w.heap) && PageBase(page))
    case Free(a) => a in w.held
  }

  /** The client's record matches the allocator's live blocks. */
  ghost predicate Safe(w: World) {
    Inv(w.heap)
    && (forall a :: a in w.held ==> exists n :: LiveBlock(w.heap, a, n) && w.held[a] <= n)
    && forall a, n :: LiveBlock(w.heap, a, n) ==> a in w.held
  }

  ghost predicate Step(w: World, op: Op, w': World) {
    Safe(w) && Enabled(w, op)
    && match op
       case Malloc(size, page) =>
         var (h', a) := Kmalloc(w.heap, size, page);
         w' == World(h', w.held[a := size])
       case Free(a) => w' == World(Kfree(w.heap, a), w.held - {a})
  }

  /** One kmalloc or kfree keeps the client's record exact; a new block is none of
      the held ones. */
  lemma StepSafe(w: World, op: Op, w': World)
    requires Step(w, op, w')
    ensures Safe(w')
    ensures op.Malloc? ==> Kmalloc(w.heap, op.size, op.page).1 !in w.held
  {
    hide Inv, LiveBlock, Kmalloc, Kfree, NeedsPage;
    match op
    case Malloc(size, page) =>
      KmallocEffect(w.heap, size, page);
      var a := Kmalloc(w.heap, size, page).1;
      assert a !in w.held;
      forall x | x in w'.held ensures exists n :: LiveBlock(w'.heap, x, n) && w'.held[x] <= n {
        if x == a {
          assert LiveBlock(w'.heap, a, BlockSize(size));
        } else {
          var n :| LiveBlock(w.heap, x, n) && w.held[x] <= n;
          assert LiveBlock(w'.heap, x, n);
        }
      }
    case Free(a) =>
      KfreeEffect(w.heap, a);
      forall x | x in w'.held ensures exists n :: LiveBlock(w'.heap, x, n) && w'.held[x] <= n {
        var n :| LiveBlock(w.heap, x, n) && w.held[x] <= n;
        assert LiveBlock(w'.heap, x, n);
      }
  }

  /** What a client may rely on: its blocks overlap neither each other nor a slab header
      nor an item on a free list. */
  ghost predicate Undisturbed(w: World) {
    (forall a, b :: a in w.held && b in w.held && a != b ==> Disjoint(a, w.held[a], b, w.held[b]))
    && (forall a, b :: a in w.held && b in w.heap.slabs ==> Disjoint(a, w.held[a], b, SIZEOF_SLAB))
    && forall a, b, f :: a in w.held && b in w.heap.slabs && f in w.heap.slabs[b].free ==>
                           Disjoint(a, w.held[a], f, SizeOf(w.heap.slabs[b].cls))
  }

  lemma SafeUndisturbed(w: World)
    requires Safe(w)
    ensures Undisturbed(w)
  {
    hide Disjoint, SizeOf, Safe;
    forall a, b | a in w.held && b in w.held && a != b ensures Disjoint(a, w.held[a], b, w.held[b]) {
      SafeDisjoint(w, a, b);
    }
    forall a, b | a in w.held && b in w.heap.slabs
      ensures Disjoint(a, w.held[a], b, SIZEOF_SLAB)
      ensures forall f :: f in w.heap.slabs[b].free ==> Disjoint(a, w.held[a], f, SizeOf(w.heap.slabs[b].cls))
    {
      SafeApart(w, a, b);
    }
  }

  lemma SafeApart(w: World, a: nat, b: nat)
    requires Safe(w) && a in w.held && b in w.heap.slabs
    ensures Disjoint(a, w.held[a], b, SIZEOF_SLAB)
    ensures forall f :: f in w.heap.slabs[b].free ==> Disjoint(a, w.held[a], f, SizeOf(w.heap.slabs[b].cls))
  {
    var n :| LiveBlock(w.heap, a, n) && w.held[a] <= n;
    hide LiveBlock, Inv, SizeOf, Safe;
    LiveAvoidsHeaders(w.heap, a, n, b);
    forall f | f in w.heap.slabs[b].free ensures Disjoint(a, w.held[a], f, SizeOf(w.heap.slabs[b].cls)) {
      LiveAvoidsFreeItems(w.heap, a, n, b, f);
    }
  }

  lemma SafeDisjoint(w: World, a: nat, b: nat)
    requires Safe(w) && a in w.held && b in w.held && a != b
    ensures Disjoint(a, w.held[a], b, w.held[b])
  {
    var n :| LiveBlock(w.heap, a, n) && w.held[a] <= n;
    var k :| LiveBlock(w.heap, b, k) && w.held[b] <= k;
    LiveBlocksDisjoint(w.heap, a, n, b, k);
  }

  /** Over every run of kmalloc and kfree that frees only held blocks, the held blocks
      stay as large as was asked for, pairwise disjoint, and clear of the allocator's
      own headers and list nodes. */
  lemma {:induction false} RunSafe(worlds: seq<World>, ops: seq<Op>)
    requires |worlds| == |ops| + 1 && Safe(worlds[0])
    requires forall i :: 0 <= i < |ops| ==> Safe(worlds[i]) ==> Step(worlds[i], ops[i], worlds[i + 1])
    ensures forall i :: 0 <= i < |worlds| ==> Safe(worlds[i]) && Undisturbed(worlds[i])
  {
    hide Step, Safe, Undisturbed;
    for n := 0 to |ops|
      invariant forall i :: 0 <= i <= n ==> Safe(worlds[i])
    {
      StepSafe(worlds[n], ops[n], worlds[n + 1]);
    }
    forall i | 0 <= i < |worlds| ensures Undisturbed(worlds[i]) {
      SafeUndisturbed(worlds[i]);
    }
  }

  // ---- where runs stop being safe ----

  /** page_alloc answers a page of the virtual pool, and a free one while there is one. */
  ghost predicate Answers(pool: set<nat>, h: State, page: nat) {
    page in pool && PageBase(page) && (Pages(h) != pool ==> page !in Pages(h))
  }

  lemma StepPages(w: World, op: Op, w': World)
    requires Step(w, op, w')
    ensures Pages(w'.heap) <= Pages(w.heap) + (if op.Malloc? then {op.page} else {})
  {
    hide Inv, LiveBlock, Kmalloc, Kfree, NeedsPage, Pages;
    match op
    case Malloc(size, page) => KmallocEffect(w.heap, size, page);
    case Free(a) => KfreeEffect(w.heap, a);
  }

  /** After any such run whose pages come from the pool, the next page that is needed meets
      a live block or a slab header if and only if the pool is used up. */
  lemma {:induction false} RunExact(pool: set<nat>, worlds: seq<World>, ops: seq<Op>, page: nat)
    requires |worlds| == |ops| + 1 && Safe(worlds[0]) && Pages(worlds[0].heap) <= pool
    requires forall i :: 0 <= i < |ops| ==> Safe(worlds[i]) ==> Step(worlds[i], ops[i], worlds[i + 1])
    requires forall i :: 0 <= i < |ops| && ops[i].Malloc? ==> ops[i].page in pool
    requires Answers(pool, worlds[|ops|].heap, page)
    ensures Safe(worlds[|ops|])
    ensures Collides(worlds[|ops|].heap, page, PAGE_SIZE) <==> Pages(worlds[|ops|].heap) == pool
  {
    hide Step, Safe, Pages, Collides;
    for n := 0 to |ops|
      invariant Safe(worlds[n]) && Pages(worlds[n].heap) <= pool
    {
      StepSafe(worlds[n], ops[n], worlds[n + 1]);
      StepPages(worlds[n], ops[n], worlds[n + 1]);
    }
    SafeInv(worlds[|ops|]);
    CollidesIffUsed(worlds[|ops|].heap, page);
  }

  lemma SafeInv(w: World)
    requires Safe(w)
    ensures Inv(w.heap)
  {}
}
