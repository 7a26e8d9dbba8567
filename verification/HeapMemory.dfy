/** How slabs and caches lie in memory, and which memory each of them depends on.

    Offsets in `Slab`: node 0, slab_size 16, total 20, total_free 24, free_list 32,
    vaddr_start 64, vaddr_end 72, magic 80. Offsets in `Slab_cache` (64 bytes):
    slab_size 0, total 4, total_free 8, slab_list 16.
  */
module HeapMemory {
  import opened Words
  import opened Layout
  import opened LinkedLists
  import opened SlabGeometry
  import opened HeapModel
  import opened HeapTheorems

  const U32: nat := 0x1_0000_0000

  function CacheAddr(base: nat, c: nat): nat { base + 64 * c }
  function SlabList(base: nat, c: nat): nat { CacheAddr(base, c) + 16 }
  function FreeList(b: nat): nat { b + 32 }

  // ---- representation ----

  /** The scalar fields of a slab header, except total_free. */
  ghost predicate Header(m: Cells, b: nat, c: nat)
    requires c < SLAB_CACHE_SIZE
  {
    Rd(m, b + 16) == SizeOf(c) && Rd(m, b + 20) == Total(Exp(c))
    && Rd(m, b + 64) == ItemAt(b, Exp(c), 0) && Rd(m, b + 72) == b + PAGE_SIZE
    && Rd(m, b + 80) == SLAB_MAGIC
  }

  /** total_free is the length of the free list. */
  ghost predicate SlabRep(m: Cells, b: nat, s: Slab)
    requires s.cls < SLAB_CACHE_SIZE
  {
    Header(m, b, s.cls) && Rd(m, b + 24) == |s.free| && IsList(m, FreeList(b), s.free)
  }

  /** The sum of the free counts of a set of slabs. */
  ghost function FreeSum(slabs: map<nat, Slab>, bs: set<nat>): nat
    requires bs <= slabs.Keys
  {
    if bs == {} then 0 else
    var b :| b in bs;
    |slabs[b].free| + FreeSum(slabs, bs - {b})
  }

  ghost function ClassSlabs(h: State, c: nat): (bs: set<nat>)
    ensures bs <= h.slabs.Keys
  {
    set b | b in h.slabs && h.slabs[b].cls == c
  }

  /** cache->total_free is the sum of total_free over all slabs of the cache;
      cache->total only ever grows. Both are 32-bit counters. */
  ghost predicate CacheRep(m: Cells, base: nat, c: nat, list: seq<nat>, total: nat, free: nat) {
    Rd(m, CacheAddr(base, c)) == SizeOf(c)
    && Rd(m, CacheAddr(base, c) + 4) == total % U32
    && Rd(m, CacheAddr(base, c) + 8) == free % U32
    && IsList(m, SlabList(base, c), list)
  }

  ghost predicate CacheOk(m: Cells, base: nat, h: State, c: nat)
    requires c < |h.lists| && c < |h.totals|
  {
    CacheRep(m, base, c, h.lists[c], h.totals[c], FreeSum(h.slabs, ClassSlabs(h, c)))
  }

  ghost predicate SlabsOk(m: Cells, h: State) {
    forall b :: b in h.slabs ==> h.slabs[b].cls < SLAB_CACHE_SIZE && SlabRep(m, b, h.slabs[b])
  }

  /** The caches lie below all pages. */
  ghost predicate Above(base: nat, h: State) {
    0 < base && forall b :: b in Pages(h) ==> base + 64 * SLAB_CACHE_SIZE <= b
  }

  ghost predicate Rep(m: Cells, base: nat, h: State) {
    Inv(h) && Above(base, h) && SlabsOk(m, h)
    && forall c: nat :: c < SLAB_CACHE_SIZE ==> CacheOk(m, base, h, c)
  }

  // ---- sums ----

  lemma {:induction false} FreeSumSplit(slabs: map<nat, Slab>, bs: set<nat>, x: nat)
    requires bs <= slabs.Keys && x in bs
    ensures FreeSum(slabs, bs) == |slabs[x].free| + FreeSum(slabs, bs - {x})
  {
    var b :| b in bs && FreeSum(slabs, bs) == |slabs[b].free| + FreeSum(slabs, bs - {b});
    if b != x {
      FreeSumSplit(slabs, bs - {b}, x);
      FreeSumSplit(slabs, bs - {x}, b);
      assert bs - {b} - {x} == bs - {x} - {b};
    }
  }

  lemma {:induction false} FreeSumFrame(slabs: map<nat, Slab>, slabs': map<nat, Slab>, bs: set<nat>)
    requires bs <= slabs.Keys && bs <= slabs'.Keys
    requires forall b :: b in bs ==> |slabs'[b].free| == |slabs[b].free|
    ensures FreeSum(slabs', bs) == FreeSum(slabs, bs)
  {
    if bs != {} {
      var b :| b in bs && FreeSum(slabs, bs) == |slabs[b].free| + FreeSum(slabs, bs - {b});
      FreeSumFrame(slabs, slabs', bs - {b});
      FreeSumSplit(slabs', bs, b);
    }
  }

  /** Replacing one slab changes the sum by the change of its free count. */
  lemma FreeSumUpdate(slabs: map<nat, Slab>, bs: set<nat>, b: nat, s: Slab)
    requires bs <= slabs.Keys && b in bs
    ensures FreeSum(slabs[b := s], bs) + |slabs[b].free| == FreeSum(slabs, bs) + |s.free|
  {
    FreeSumSplit(slabs, bs, b);
    FreeSumSplit(slabs[b := s], bs, b);
    FreeSumFrame(slabs, slabs[b := s], bs - {b});
  }

  // ---- memory regions ----

  ghost predicate Agree(m: Cells, m': Cells, lo: nat, hi: nat) {
    forall a: nat :: lo <= a < hi ==> Rd(m', a) == Rd(m, a)
  }

  /** The free list of a slab uses memory of its page only. */
  lemma FreeNodeInPage(b: nat, s: Slab, n: nat)
    requires SlabOk(b, s) && b % PAGE_SIZE == 0 && n in Chain(FreeList(b), s.free)
    ensures n == FreeList(b) || n == TailOf(FreeList(b))
            || (n in s.free && b + SIZEOF_SLAB <= n && n + SizeOf(s.cls) <= b + PAGE_SIZE && n + 32 <= b + PAGE_SIZE)
  {
    if n in s.free {
      assert n in Elems(s.free);
      FreeItemInPage(b, s.cls, n);
    }
  }

  lemma FreeItemInPage(b: nat, c: nat, n: nat)
    requires c < SLAB_CACHE_SIZE && n in Items(b, c)
    ensures b + SIZEOF_SLAB <= n && n + SizeOf(c) <= b + PAGE_SIZE && 32 <= SizeOf(c)
  {
    var i := IsItem(b, c, n);
    ItemInside(b, Exp(c), i);
    MinSize(c);
  }

  lemma MinSize(c: nat)
    ensures 32 <= SizeOf(c)
  {
    Pow2Values();
    Pow2Mono(5, Exp(c));
  }

  /** A slab is represented by the memory of its page after the node. */
  lemma SlabFrame(m: Cells, m': Cells, b: nat, s: Slab)
    requires SlabOk(b, s) && b % PAGE_SIZE == 0 && SlabRep(m, b, s) && Agree(m, m', b + 16, b + PAGE_SIZE)
    ensures SlabRep(m', b, s)
  {
    hide SlabOk, IsList, Chain, SizeOf, ItemAt, Total;
    forall n, a: nat | n in Chain(FreeList(b), s.free) && InNode(a, n) ensures Rd(m', a) == Rd(m, a) {
      FreeNodeInPage(b, s, n);
    }
    ListFrame(m, m', FreeList(b), s.free);
  }

  /** A cache is represented by its own 64 bytes and the nodes of its slabs. */
  lemma CacheFrame(m: Cells, m': Cells, base: nat, c: nat, list: seq<nat>, total: nat, free: nat)
    requires CacheRep(m, base, c, list, total, free)
    requires Agree(m, m', CacheAddr(base, c), CacheAddr(base, c) + 64)
    requires forall b :: b in list ==> Agree(m, m', b, b + 16)
    ensures CacheRep(m', base, c, list, total, free)
  {
    hide IsList;
    forall n, a: nat | n in Chain(SlabList(base, c), list) && InNode(a, n) ensures Rd(m', a) == Rd(m, a) {}
    hide Chain;
    ListFrame(m, m', SlabList(base, c), list);
  }

  /** Memory may have changed in page b, in cache c and in the slab nodes on c's list. */
  ghost predicate Touched(m: Cells, m': Cells, base: nat, h: State, c: nat, b: nat)
    requires c < |h.lists|
  {
    forall a: nat :: !(b <= a < b + PAGE_SIZE) && !(CacheAddr(base, c) <= a < CacheAddr(base, c) + 64)
                     && (forall x :: x in h.lists[c] ==> !InNode(a, x))
                     ==> Rd(m', a) == Rd(m, a)
  }

  /** ... then every other slab and every other cache is still represented. */
  lemma OtherSlabKept(m: Cells, m': Cells, base: nat, h: State, c: nat, b: nat, p: nat)
    requires Rep(m, base, h) && c < SLAB_CACHE_SIZE && b % PAGE_SIZE == 0 && Touched(m, m', base, h, c, b)
    requires p in h.slabs && p != b
    ensures SlabRep(m', p, h.slabs[p])
  {
    assert SlabOk(p, h.slabs[p]) && p in Pages(h) && ListOk(h, c);
    forall a: nat | p + 16 <= a < p + PAGE_SIZE ensures Rd(m', a) == Rd(m, a) {
      PagesApart(p, b);
      forall x | x in h.lists[c] ensures !InNode(a, x) {
        assert x in Pages(h);
        if x != p {
          PagesApart(p, x);
        }
      }
    }
    hide Inv, Touched, CacheOk, SlabOk;
    SlabFrame(m, m', p, h.slabs[p]);
  }

  lemma OtherCacheKept(m: Cells, m': Cells, base: nat, h: State, c: nat, b: nat, d: nat)
    requires Rep(m, base, h) && c < SLAB_CACHE_SIZE && b % PAGE_SIZE == 0 && Touched(m, m', base, h, c, b)
    requires base + 64 * SLAB_CACHE_SIZE <= b && d < SLAB_CACHE_SIZE && d != c && b !in h.lists[d]
    ensures CacheOk(m', base, h, d)
  {
    assert ListOk(h, c) && ListOk(h, d) && CacheOk(m, base, h, d);
    forall x | x in h.lists[c] ensures x in Pages(h) && x !in h.lists[d] {}
    forall x | x in h.lists[d] ensures x in Pages(h) && base + 64 * SLAB_CACHE_SIZE <= x {}
    hide ListOk, CacheRep, SlabsOk, CacheOk, Touched;
    forall x | x in h.lists[d] ensures Agree(m, m', x, x + 16) {
      forall y | y in h.lists[c] ensures y != x && y % PAGE_SIZE == 0 {
        HeldPageBase(h, y);
      }
      HeldPageBase(h, x);
      hide Inv, Pages;
      NodeKept(m, m', base, h, c, b, x);
    }
    forall y | y in h.lists[c] ensures base + 64 * SLAB_CACHE_SIZE <= y {}
    CacheCellsKept(m, m', base, h, c, b, d);
    CacheKeptBy(m, m', base, h, d);
  }

  lemma NodeKept(m: Cells, m': Cells, base: nat, h: State, c: nat, b: nat, x: nat)
    requires c < |h.lists| && c < SLAB_CACHE_SIZE && Touched(m, m', base, h, c, b)
    requires x % PAGE_SIZE == 0 && b % PAGE_SIZE == 0 && x != b && base + 64 * SLAB_CACHE_SIZE <= x
    requires forall y :: y in h.lists[c] ==> y != x && y % PAGE_SIZE == 0
    ensures Agree(m, m', x, x + 16)
  {
    PagesApart(x, b);
    forall a: nat | x <= a < x + 16 ensures Rd(m', a) == Rd(m, a) {
      forall y | y in h.lists[c] ensures !InNode(a, y) {
        PagesApart(x, y);
      }
    }
  }

  lemma CacheCellsKept(m: Cells, m': Cells, base: nat, h: State, c: nat, b: nat, d: nat)
    requires c < |h.lists| && c < SLAB_CACHE_SIZE && Touched(m, m', base, h, c, b)
    requires d < SLAB_CACHE_SIZE && d != c && base + 64 * SLAB_CACHE_SIZE <= b
    requires forall y :: y in h.lists[c] ==> base + 64 * SLAB_CACHE_SIZE <= y
    ensures Agree(m, m', CacheAddr(base, d), CacheAddr(base, d) + 64)
  {}

  lemma HeldPageBase(h: State, x: nat)
    requires Inv(h) && x in Pages(h)
    ensures PageBase(x)
  {}

  lemma CacheKeptBy(m: Cells, m': Cells, base: nat, h: State, d: nat)
    requires d < |h.lists| && d < |h.totals| && CacheOk(m, base, h, d)
    requires Agree(m, m', CacheAddr(base, d), CacheAddr(base, d) + 64)
    requires forall b :: b in h.lists[d] ==> Agree(m, m', b, b + 16)
    ensures CacheOk(m', base, h, d)
  {
    hide CacheRep, Agree;
    CacheFrame(m, m', base, d, h.lists[d], h.totals[d], FreeSum(h.slabs, ClassSlabs(h, d)));
  }

  // ---- from one heap state to the next ----

  /** The states differ only in slab b and in cache c, the class of b. */
  ghost predicate OneSlabStep(h: State, h': State, c: nat, b: nat) {
    c < SLAB_CACHE_SIZE && |h.lists| == |h'.lists| == |h.totals| == |h'.totals| == SLAB_CACHE_SIZE
    && (forall p :: p != b ==> (p in h.slabs <==> p in h'.slabs))
    && (forall p :: p in h.slabs && p != b ==> h'.slabs[p] == h.slabs[p])
    && (b in h.slabs ==> h.slabs[b].cls == c) && (b in h'.slabs ==> h'.slabs[b].cls == c)
    && forall d: nat :: d < SLAB_CACHE_SIZE && d != c ==> h'.lists[d] == h.lists[d] && h'.totals[d] == h.totals[d]
  }

  lemma OtherClassSum(h: State, h': State, c: nat, b: nat, d: nat)
    requires OneSlabStep(h, h', c, b) && d != c
    ensures ClassSlabs(h', d) == ClassSlabs(h, d)
    ensures FreeSum(h'.slabs, ClassSlabs(h', d)) == FreeSum(h.slabs, ClassSlabs(h, d))
  {
    assert ClassSlabs(h', d) == ClassSlabs(h, d);
    FreeSumFrame(h.slabs, h'.slabs, ClassSlabs(h, d));
  }

  lemma RepStep(m: Cells, m': Cells, base: nat, h: State, h': State, c: nat, b: nat)
    requires Rep(m, base, h) && OneSlabStep(h, h', c, b) && Touched(m, m', base, h, c, b)
    requires Inv(h') && Above(base, h') && b % PAGE_SIZE == 0 && base + 64 * SLAB_CACHE_SIZE <= b
    requires b in h'.slabs ==> SlabRep(m', b, h'.slabs[b])
    requires CacheOk(m', base, h', c)
    ensures Rep(m', base, h')
  {
    forall p | p in h'.slabs ensures h'.slabs[p].cls < SLAB_CACHE_SIZE && SlabRep(m', p, h'.slabs[p]) {
      hide SlabRep, Touched, CacheOk, Above;
      assert SlabOk(p, h'.slabs[p]);
      if p != b {
        OtherSlabKept(m, m', base, h, c, b, p);
      }
    }
    forall d: nat | d < SLAB_CACHE_SIZE ensures CacheOk(m', base, h', d) {
      if d != c {
        assert ListOk(h, d) && b !in h.lists[d];
        hide Inv, Touched, SlabRep, CacheRep, Above;
        OtherCacheKept(m, m', base, h, c, b, d);
        OtherClassSum(h, h', c, b, d);
      }
    }
  }

  lemma AddSlabSum(h: State, c: nat, b: nat)
    requires Inv(h) && c < SLAB_CACHE_SIZE && b !in h.slabs
    ensures var h' := AddSlab(h, c, b);
            FreeSum(h'.slabs, ClassSlabs(h', c)) == FreeSum(h.slabs, ClassSlabs(h, c)) + Total(Exp(c))
    ensures OneSlabStep(h, AddSlab(h, c, b), c, b)
  {
    var h' := AddSlab(h, c, b);
    hide Total, ItemSeq;
    assert ClassSlabs(h', c) == ClassSlabs(h, c) + {b};
    FreeSumSplit(h'.slabs, ClassSlabs(h', c), b);
    assert ClassSlabs(h', c) - {b} == ClassSlabs(h, c);
    FreeSumFrame(h.slabs, h'.slabs, ClassSlabs(h, c));
  }

  lemma TakeItemSum(h: State, c: nat)
    requires Inv(h) && c < SLAB_CACHE_SIZE && h.lists[c] != []
    requires h.lists[c][0] in h.slabs && h.slabs[h.lists[c][0]].free != []
    ensures var h' := TakeItem(h, c);
            FreeSum(h'.slabs, ClassSlabs(h', c)) + 1 == FreeSum(h.slabs, ClassSlabs(h, c))
    ensures OneSlabStep(h, TakeItem(h, c), c, h.lists[c][0])
  {
    assert ListOk(h, c) && h.lists[c][0] in h.lists[c];
    var b := h.lists[c][0];
    var h' := TakeItem(h, c);
    assert ClassSlabs(h', c) == ClassSlabs(h, c);
    FreeSumUpdate(h.slabs, ClassSlabs(h, c), b, h'.slabs[b]);
  }

  lemma GiveItemSum(h: State, b: nat, a: nat)
    requires Inv(h) && b in h.slabs && h.slabs[b].cls < SLAB_CACHE_SIZE
    ensures var h' := GiveItem(h, b, a);
            var c := h.slabs[b].cls;
            FreeSum(h'.slabs, ClassSlabs(h', c)) + (if b in h'.slabs then 0 else Total(Exp(c)))
            == FreeSum(h.slabs, ClassSlabs(h, c)) + 1
    ensures OneSlabStep(h, GiveItem(h, b, a), h.slabs[b].cls, b)
  {
    var c := h.slabs[b].cls;
    var h' := GiveItem(h, b, a);
    hide Total;
    if b in h'.slabs {
      assert ClassSlabs(h', c) == ClassSlabs(h, c);
      FreeSumUpdate(h.slabs, ClassSlabs(h, c), b, h'.slabs[b]);
    } else {
      assert ClassSlabs(h', c) == ClassSlabs(h, c) - {b};
      FreeSumSplit(h.slabs, ClassSlabs(h, c), b);
      FreeSumFrame(h.slabs, h'.slabs, ClassSlabs(h', c));
    }
  }

  // ---- linking a new slab into its cache ----

  /** A page outside the heap may change: the heap is still represented. */
  lemma ForeignPage(m: Cells, m': Cells, base: nat, h: State, c: nat, b: nat)
    requires Rep(m, base, h) && c < SLAB_CACHE_SIZE && PageBase(b) && b !in Pages(h)
    requires base + 64 * SLAB_CACHE_SIZE <= b && SameOutside(m, m', b, b + PAGE_SIZE)
    ensures Rep(m', base, h)
  {
    assert Touched(m, m', base, h, c, b);
    assert ListOk(h, c) && CacheOk(m, base, h, c);
    forall x | x in h.lists[c] ensures Agree(m, m', x, x + 16) {
      HeldPageBase(h, x);
      PagesApart(x, b);
    }
    hide Inv, Touched, CacheRep, SlabRep;
    CacheKeptBy(m, m', base, h, c);
    RepStep(m, m', base, h, h, c, b);
  }

  /** The nodes of a slab list are page starts above the caches. */
  lemma SlabNodes(m: Cells, base: nat, h: State, c: nat, n: nat)
    requires Rep(m, base, h) && c < SLAB_CACHE_SIZE && n in h.lists[c]
    ensures n in h.slabs && h.slabs[n].cls == c && PageBase(n) && base + 64 * SLAB_CACHE_SIZE <= n
  {
    assert ListOk(h, c) && n in Pages(h);
  }

  lemma FreshSlabNode(m: Cells, base: nat, h: State, c: nat, b: nat)
    requires Rep(m, base, h) && c < SLAB_CACHE_SIZE && PageBase(b) && base + 64 * SLAB_CACHE_SIZE <= b
    requires b !in h.lists[c]
    ensures FreshNode(SlabList(base, c), h.lists[c], b)
  {
    forall n | n in Chain(SlabList(base, c), h.lists[c]) ensures Apart(b, n) {
      if n in h.lists[c] {
        hide Rep;
        SlabNodes(m, base, h, c, n);
        PagesApart(b, n);
      }
    }
  }

  /** The counters of a cache are no part of its slab list. */
  lemma CountersKeepList(m: Cells, m': Cells, base: nat, c: nat, s: seq<nat>)
    requires c < SLAB_CACHE_SIZE && IsList(m, SlabList(base, c), s)
    requires forall n :: n in s ==> base + 64 * SLAB_CACHE_SIZE <= n
    requires SameOutside(m, m', CacheAddr(base, c), CacheAddr(base, c) + 16)
    ensures IsList(m', SlabList(base, c), s)
  {
    hide IsList;
    forall n, a: nat | n in Chain(SlabList(base, c), s) && InNode(a, n) ensures Rd(m', a) == Rd(m, a) {}
    hide Chain;
    ListFrame(m, m', SlabList(base, c), s);
  }

  /** The counters after `cache->total += slab->total; cache->total_free += ...`. */
  ghost function Counted(m: Cells, ca: nat, t: nat): Cells {
    m[ca + 4 := (Rd(m, ca + 4) + t) % U32][ca + 8 := (Rd(m, ca + 8) + t) % U32]
  }

  lemma CountedSums(m: Cells, ca: nat, t: nat, total: nat, free: nat)
    requires Rd(m, ca + 4) == total % U32 && Rd(m, ca + 8) == free % U32
    ensures var m' := Counted(m, ca, t);
            Rd(m', ca + 4) == (total + t) % U32 && Rd(m', ca + 8) == (free + t) % U32
            && Rd(m', ca) == Rd(m, ca) && SameOutside(m, m', ca, ca + 16)
  {
    ModAdd(total, t);
    ModAdd(free, t);
  }

  lemma ModAdd(a: nat, t: nat)
    ensures (a % U32 + t) % U32 == (a + t) % U32
  {
    ModOfSum(a % U32 + t, a / U32, U32);
  }

  lemma GrownCacheRep(m1: Cells, m2: Cells, base: nat, h: State, c: nat, b: nat)
    requires Rep(m1, base, h) && c < SLAB_CACHE_SIZE && PageBase(b) && b !in Pages(h)
    requires base + 64 * SLAB_CACHE_SIZE <= b
    requires IsList(m2, SlabList(base, c), [b] + h.lists[c])
    requires Agree(m1, m2, CacheAddr(base, c), CacheAddr(base, c) + 16)
    ensures CacheOk(Counted(m2, CacheAddr(base, c), Total(Exp(c))), base, AddSlab(h, c, b), c)
  {
    hide Rep, IsList, Total, ItemSeq, SizeOf, FreeSum, AddSlab, OneSlabStep, ClassSlabs, Inv, Counted, CacheRep,
         CacheOk, Agree, PageBase, Pages, CacheAddr, SlabList;
    CacheParts(m1, base, h, c);
    ListAbove(m1, base, h, c);
    AddedSlab(h, c, b);
    var t, free := Total(Exp(c)), FreeSum(h.slabs, ClassSlabs(h, c));
    CounterStep(m1, m2, base, c, h.lists[c], [b] + h.lists[c], h.totals[c], free, t);
    CacheOkFrom(Counted(m2, CacheAddr(base, c), t), base, AddSlab(h, c, b), c, h.totals[c] + t, free + t);
  }

  lemma CacheParts(m: Cells, base: nat, h: State, c: nat)
    requires Rep(m, base, h) && c < SLAB_CACHE_SIZE
    ensures Inv(h) && |h.lists| == |h.totals| == SLAB_CACHE_SIZE
    ensures CacheRep(m, base, c, h.lists[c], h.totals[c], FreeSum(h.slabs, ClassSlabs(h, c)))
  {
    hide CacheRep, FreeSum, ClassSlabs, SlabsOk, Above;
    assert CacheOk(m, base, h, c);
  }

  lemma AddedSlab(h: State, c: nat, b: nat)
    requires Inv(h) && c < SLAB_CACHE_SIZE && PageBase(b) && b !in Pages(h)
    ensures var h' := AddSlab(h, c, b);
            c < |h'.lists| == |h'.totals| && h'.lists[c] == [b] + h.lists[c]
            && h'.totals[c] == h.totals[c] + Total(Exp(c))
            && FreeSum(h'.slabs, ClassSlabs(h', c)) == FreeSum(h.slabs, ClassSlabs(h, c)) + Total(Exp(c))
  {
    hide FreeSum, ClassSlabs, Total, ItemSeq, PageBase;
    AddSlabSum(h, c, b);
    hide SlabOk, ListOk;
  }

  lemma CounterStep(m1: Cells, m2: Cells, base: nat, c: nat, list: seq<nat>, list': seq<nat>,
                    total: nat, free: nat, t: nat)
    requires c < SLAB_CACHE_SIZE && CacheRep(m1, base, c, list, total, free)
    requires IsList(m2, SlabList(base, c), list')
    requires forall n :: n in list' ==> base + 64 * SLAB_CACHE_SIZE <= n
    requires Agree(m1, m2, CacheAddr(base, c), CacheAddr(base, c) + 16)
    ensures CacheRep(Counted(m2, CacheAddr(base, c), t), base, c, list', total + t, free + t)
  {
    hide IsList, SizeOf;
    CountedSums(m2, CacheAddr(base, c), t, total, free);
    hide Counted;
    CountersKeepList(m2, Counted(m2, CacheAddr(base, c), t), base, c, list');
  }

  lemma ListAbove(m: Cells, base: nat, h: State, c: nat)
    requires Rep(m, base, h) && c < SLAB_CACHE_SIZE
    ensures forall n :: n in h.lists[c] ==> base + 64 * SLAB_CACHE_SIZE <= n
  {
    forall n | n in h.lists[c] ensures base + 64 * SLAB_CACHE_SIZE <= n {
      SlabNodes(m, base, h, c, n);
    }
  }

  lemma GrownTouched(m1: Cells, m2: Cells, base: nat, h: State, c: nat, b: nat)
    requires Rep(m1, base, h) && c < SLAB_CACHE_SIZE && PageBase(b) && b !in Pages(h)
    requires base + 64 * SLAB_CACHE_SIZE <= b
    requires OnlyNodes(m1, m2, [SlabList(base, c), b, Chain(SlabList(base, c), h.lists[c])[1]])
    ensures var m3 := Counted(m2, CacheAddr(base, c), Total(Exp(c)));
            Touched(m1, m3, base, h, c, b) && Agree(m1, m3, b + 16, b + PAGE_SIZE)
            && Agree(m1, m2, CacheAddr(base, c), CacheAddr(base, c) + 16)
  {
    var first := Chain(SlabList(base, c), h.lists[c])[1];
    assert first == TailOf(SlabList(base, c)) || first in h.lists[c];
    if first in h.lists[c] {
      SlabNodes(m1, base, h, c, first);
      assert first in Pages(h);
      PagesApart(first, b);
    }
    hide Rep, Total, Chain, Inv, SlabsOk, CacheOk, Above, Pages, PageBase;
    ThreeNodes(m1, m2, SlabList(base, c), b, first);
    hide OnlyNodes;
    GrownCells(m1, m2, base, h, c, b, first, Total(Exp(c)));
  }

  lemma GrownCells(m1: Cells, m2: Cells, base: nat, h: State, c: nat, b: nat, first: nat, t: nat)
    requires c < SLAB_CACHE_SIZE && c < |h.lists| && base + 64 * SLAB_CACHE_SIZE <= b
    requires first == TailOf(SlabList(base, c))
             || (first in h.lists[c] && base + 64 * SLAB_CACHE_SIZE <= first
                 && Disjoint(first, PAGE_SIZE, b, PAGE_SIZE))
    requires forall a: nat :: !InNode(a, SlabList(base, c)) && !InNode(a, b) && !InNode(a, first) ==>
                                Rd(m2, a) == Rd(m1, a)
    ensures Touched(m1, Counted(m2, CacheAddr(base, c), t), base, h, c, b)
    ensures Agree(m1, Counted(m2, CacheAddr(base, c), t), b + 16, b + PAGE_SIZE)
    ensures Agree(m1, m2, CacheAddr(base, c), CacheAddr(base, c) + 16)
  {
    var m3 := Counted(m2, CacheAddr(base, c), t);
    assert SameOutside(m2, m3, CacheAddr(base, c), CacheAddr(base, c) + 16);
    hide Counted;
  }

  /** slab_create, list_push and the two counters implement `AddSlab`. */
  lemma GrownCache(m1: Cells, m2: Cells, base: nat, h: State, c: nat, b: nat)
    requires Rep(m1, base, h) && c < SLAB_CACHE_SIZE && PageBase(b) && b !in Pages(h)
    requires base + 64 * SLAB_CACHE_SIZE <= b
    requires SlabRep(m1, b, Slab(c, ItemSeq(b, c, Total(Exp(c))), {}))
    requires IsList(m2, SlabList(base, c), [b] + h.lists[c])
    requires OnlyNodes(m1, m2, [SlabList(base, c), b, Chain(SlabList(base, c), h.lists[c])[1]])
    ensures Rep(Counted(m2, CacheAddr(base, c), Total(Exp(c))), base, AddSlab(h, c, b))
  {
    var h' := AddSlab(h, c, b);
    var m3 := Counted(m2, CacheAddr(base, c), Total(Exp(c)));
    GrownTouched(m1, m2, base, h, c, b);
    GrownCacheRep(m1, m2, base, h, c, b);
    AddSlabInv(h, c, b);
    AddSlabSum(h, c, b);
    assert SlabOk(b, h'.slabs[b]);
    AddPages(h, c, b);
    hide Inv, IsList, Total, ItemSeq, SlabOk, SlabRep, CacheOk, Counted, OnlyNodes, Touched, SlabsOk, OneSlabStep;
    SlabFrame(m1, m3, b, h'.slabs[b]);
    RepStep(m1, m3, base, h, h', c, b);
  }

  lemma ThreeNodes(m: Cells, m': Cells, x: nat, y: nat, z: nat)
    requires OnlyNodes(m, m', [x, y, z])
    ensures forall a: nat :: !InNode(a, x) && !InNode(a, y) && !InNode(a, z) ==> Rd(m', a) == Rd(m, a)
  {}

  lemma TwoNodes(m: Cells, m': Cells, x: nat, y: nat)
    requires OnlyNodes(m, m', [x, y])
    ensures forall a: nat :: !InNode(a, x) && !InNode(a, y) ==> Rd(m', a) == Rd(m, a)
  {}

  // ---- taking an item ----

  lemma TotalSmall(k: nat)
    requires k <= MAX_EXP
    ensures Total(k) <= PAGE_SIZE
  {
    PageSlots(k);
    hide Pow2;
    MulMono(1, Pow2(k), SlotsPerPage(k));
  }

  /** The slab and the item that slab_alloc takes. */
  lemma TakenFacts(m: Cells, base: nat, h: State, c: nat)
    requires Rep(m, base, h) && c < SLAB_CACHE_SIZE && h.lists[c] != []
    ensures var b := h.lists[c][0];
            b in h.slabs && h.slabs[b].cls == c && h.slabs[b].free != [] && SlabOk(b, h.slabs[b])
            && SlabRep(m, b, h.slabs[b]) && PageBase(b) && base + 64 * SLAB_CACHE_SIZE <= b
            && 0 < |h.slabs[b].free| <= PAGE_SIZE && CacheOk(m, base, h, c)
            && IsList(m, SlabList(base, c), h.lists[c])
    ensures var a := h.slabs[h.lists[c][0]].free[0];
            a in Items(h.lists[c][0], c)
  {
    assert ListOk(h, c) && h.lists[c][0] in h.lists[c];
    var b := h.lists[c][0];
    SlabNodes(m, base, h, c, b);
    assert SlabOk(b, h.slabs[b]) && CacheOk(m, base, h, c);
    AllFree(b, h.slabs[b]);
    TotalSmall(Exp(c));
    LiveIsItem(h, b, h.slabs[b].free[0]);
    hide Inv, Total, IsList;
  }

  /** list_pop and memset on the item leave the rest of the free list in place. */
  lemma PoppedAndCleared(m0: Cells, m1: Cells, m2: Cells, b: nat, s: Slab)
    requires SlabOk(b, s) && b % PAGE_SIZE == 0 && s.free != [] && SlabRep(m0, b, s)
    requires IsList(m1, FreeList(b), s.free[1..])
    requires OnlyNodes(m0, m1, [FreeList(b), Chain(FreeList(b), s.free)[2]])
    requires SameOutside(m1, m2, s.free[0], s.free[0] + SizeOf(s.cls))
    ensures IsList(m2, FreeList(b), s.free[1..])
    ensures SameOutside(m0, m2, b + 32, b + PAGE_SIZE) && Header(m2, b, s.cls) && Rd(m2, b + 24) == |s.free|
  {
    PoppedCells(m0, m1, m2, b, s);
    RestApart(b, s);
    hide SlabOk, SlabRep, IsList, SizeOf, Header;
    forall n, a: nat | n in Chain(FreeList(b), s.free[1..]) && InNode(a, n) ensures Rd(m2, a) == Rd(m1, a) {}
    hide Chain;
    ListFrame(m1, m2, FreeList(b), s.free[1..]);
  }

  lemma PoppedCells(m0: Cells, m1: Cells, m2: Cells, b: nat, s: Slab)
    requires SlabOk(b, s) && b % PAGE_SIZE == 0 && s.free != [] && SlabRep(m0, b, s)
    requires OnlyNodes(m0, m1, [FreeList(b), Chain(FreeList(b), s.free)[2]])
    requires SameOutside(m1, m2, s.free[0], s.free[0] + SizeOf(s.cls))
    ensures SameOutside(m0, m2, b + 32, b + PAGE_SIZE) && Header(m2, b, s.cls) && Rd(m2, b + 24) == |s.free|
  {
    var next := Chain(FreeList(b), s.free)[2];
    assert next in Chain(FreeList(b), s.free) && s.free[0] in Chain(FreeList(b), s.free);
    SecondIsNode(b, s);
    assert s.free[0] in Elems(s.free);
    FreeItemInPage(b, s.cls, s.free[0]);
    TwoNodes(m0, m1, FreeList(b), next);
    hide SlabOk, Chain, IsList, SizeOf, Total, ItemAt, OnlyNodes;
  }

  /** After the first free item comes another free item or the tail. */
  lemma SecondIsNode(b: nat, s: Slab)
    requires SlabOk(b, s) && b % PAGE_SIZE == 0 && s.free != []
    ensures var n := Chain(FreeList(b), s.free)[2];
            n == TailOf(FreeList(b)) || (b + SIZEOF_SLAB <= n && n + 32 <= b + PAGE_SIZE && n in s.free[1..])
  {
    if |s.free| > 1 {
      assert Chain(FreeList(b), s.free)[2] == s.free[1] && s.free[1..][0] == s.free[1];
      assert s.free[1] in Elems(s.free);
      FreeItemInPage(b, s.cls, s.free[1]);
    }
  }

  /** The other list nodes do not lie in the first free item. */
  lemma RestApart(b: nat, s: Slab)
    requires SlabOk(b, s) && b % PAGE_SIZE == 0 && s.free != []
    ensures forall n :: n in Chain(FreeList(b), s.free[1..]) ==> Disjoint(n, 16, s.free[0], SizeOf(s.cls))
  {
    var a := s.free[0];
    assert a in Elems(s.free);
    FreeItemInPage(b, s.cls, a);
    forall n | n in Chain(FreeList(b), s.free[1..]) ensures Disjoint(n, 16, a, SizeOf(s.cls)) {
      if n in s.free[1..] {
        assert n in Elems(s.free) && n != a;
        ItemsDisjoint(b, s.cls, n, a);
        MinSize(s.cls);
      }
    }
  }

  lemma ItemsDisjoint(b: nat, c: nat, x: nat, y: nat)
    requires c < SLAB_CACHE_SIZE && x in Items(b, c) && y in Items(b, c) && x != y
    ensures Disjoint(x, SizeOf(c), y, SizeOf(c))
  {
    var i := IsItem(b, c, x);
    var j := IsItem(b, c, y);
    hide Items, Pow2;
    if i < j {
      ItemsApart(b, Exp(c), i, j);
    } else if j < i {
      ItemsApart(b, Exp(c), j, i);
    }
  }

  function Minus(v: nat, n: nat): nat {
    (v - n) % U32
  }

  /** The two counters of slab_alloc. */
  ghost function CountedDown(m: Cells, ca: nat, b: nat): Cells {
    var m' := m[ca + 8 := Minus(Rd(m, ca + 8), 1)];
    m'[b + 24 := Minus(Rd(m', b + 24), 1)]
  }

  lemma CountedDownCells(m: Cells, ca: nat, b: nat, free: nat, n: nat)
    requires ca + 16 <= b && Rd(m, ca + 8) == free % U32 && 1 <= free && Rd(m, b + 24) == n && 1 <= n < U32
    ensures var m' := CountedDown(m, ca, b);
            Rd(m', ca + 8) == (free - 1) % U32 && Rd(m', b + 24) == n - 1
            && forall a: nat :: a != ca + 8 && a != b + 24 ==> Rd(m', a) == Rd(m, a)
  {}

  ghost predicate ListNodesOk(base: nat, b: nat, list: seq<nat>) {
    forall n :: n in list ==>
      base + 64 * SLAB_CACHE_SIZE <= n && (n == b || Disjoint(n, PAGE_SIZE, b, PAGE_SIZE))
  }

  lemma ListNodesFine(m: Cells, base: nat, h: State, c: nat, b: nat)
    requires Rep(m, base, h) && c < SLAB_CACHE_SIZE && b % PAGE_SIZE == 0
    ensures ListNodesOk(base, b, h.lists[c])
  {
    forall n | n in h.lists[c]
      ensures base + 64 * SLAB_CACHE_SIZE <= n && (n == b || Disjoint(n, PAGE_SIZE, b, PAGE_SIZE))
    {
      SlabNodes(m, base, h, c, n);
      if n != b {
        PagesApart(n, b);
      }
    }
  }

  ghost function Taken(s: Slab): Slab
    requires s.free != []
  {
    s.(free := s.free[1..], live := s.live + {s.free[0]})
  }

  /** After the counters: the slab has one free item less, its cache's list is as before. */
  lemma TakenCounters(m0: Cells, m2: Cells, base: nat, c: nat, b: nat, s: Slab, list: seq<nat>, total: nat, free: nat)
    requires c < SLAB_CACHE_SIZE && base + 64 * SLAB_CACHE_SIZE <= b && 1 <= free
    requires s.cls == c && 0 < |s.free| <= PAGE_SIZE && forall n :: n in s.free ==> b + 32 <= n
    requires CacheRep(m0, base, c, list, total, free) && ListNodesOk(base, b, list)
    requires SameOutside(m0, m2, b + 32, b + PAGE_SIZE) && Header(m2, b, c)
    requires Rd(m2, b + 24) == |s.free| && IsList(m2, FreeList(b), s.free[1..])
    ensures var m4 := CountedDown(m2, CacheAddr(base, c), b);
            SlabRep(m4, b, Taken(s)) && OnlyCountersAndItems(m0, m4, base, c, b)
            && Rd(m4, b + 24) == |s.free| - 1 && CacheRep(m4, base, c, list, total, free - 1)
  {
    var ca := CacheAddr(base, c);
    var m4 := CountedDown(m2, ca, b);
    hide IsList, Total, SizeOf, ItemAt;
    CountedDownCells(m2, ca, b, free, |s.free|);
    hide CountedDown;
    assert forall n :: n in s.free[1..] ==> n in s.free;
    ScalarKeepsFree(m2, m4, b, s.free[1..]);
    CacheListKept(m0, m4, base, c, b, list);
  }

  /** Changes confined to the counters, the free list and the items of slab b. */
  ghost predicate OnlyCountersAndItems(m: Cells, m': Cells, base: nat, c: nat, b: nat) {
    forall a: nat :: a != CacheAddr(base, c) + 8 && a != b + 24 && !(b + 32 <= a < b + PAGE_SIZE) ==>
      Rd(m', a) == Rd(m, a)
  }

  lemma ScalarKeepsFree(m: Cells, m': Cells, b: nat, free: seq<nat>)
    requires IsList(m, FreeList(b), free)
    requires forall a: nat :: b + 32 <= a ==> Rd(m', a) == Rd(m, a)
    requires forall n :: n in free ==> b + 32 <= n
    ensures IsList(m', FreeList(b), free)
  {
    hide IsList;
    forall n, a: nat | n in Chain(FreeList(b), free) && InNode(a, n) ensures Rd(m', a) == Rd(m, a) {}
    hide Chain;
    ListFrame(m, m', FreeList(b), free);
  }

  lemma CacheListKept(m: Cells, m': Cells, base: nat, c: nat, b: nat, list: seq<nat>)
    requires c < SLAB_CACHE_SIZE && IsList(m, SlabList(base, c), list) && OnlyCountersAndItems(m, m', base, c, b)
    requires base + 64 * SLAB_CACHE_SIZE <= b
    requires ListNodesOk(base, b, list)
    ensures IsList(m', SlabList(base, c), list)
  {
    hide IsList;
    forall n, a: nat | n in Chain(SlabList(base, c), list) && InNode(a, n) ensures Rd(m', a) == Rd(m, a) {}
    hide Chain;
    ListFrame(m, m', SlabList(base, c), list);
  }

  /** list_pop of the slab when it has no free item left. */
  ghost predicate PoppedIfEmpty(m4: Cells, m5: Cells, base: nat, c: nat, s: Slab, list: seq<nat>) {
    if |s.free| == 1
    then list != [] && IsList(m5, SlabList(base, c), list[1..])
         && OnlyNodes(m4, m5, [SlabList(base, c), Chain(SlabList(base, c), list)[2]])
    else m5 == m4
  }

  lemma PoppedCacheCells(m4: Cells, m5: Cells, base: nat, c: nat, b: nat, s: Slab, list: seq<nat>)
    requires c < SLAB_CACHE_SIZE && PoppedIfEmpty(m4, m5, base, c, s, list) && ListNodesOk(base, b, list)
    requires list != [] && list[0] == b && NoDup(list) && base + 64 * SLAB_CACHE_SIZE <= b
    ensures Agree(m4, m5, b, b + PAGE_SIZE) && Agree(m4, m5, CacheAddr(base, c), CacheAddr(base, c) + 16)
    ensures forall a: nat ::
              !(CacheAddr(base, c) <= a < CacheAddr(base, c) + 64) && (forall x :: x in list ==> !InNode(a, x))
              ==> Rd(m5, a) == Rd(m4, a)
  {
    if |s.free| == 1 {
      var next := Chain(SlabList(base, c), list)[2];
      if |list| > 1 {
        assert next == list[1] && next in list && next != b;
      } else {
        assert next == TailOf(SlabList(base, c));
      }
      TwoNodes(m4, m5, SlabList(base, c), next);
      hide PoppedIfEmpty, Chain, NoDup;
    }
  }

  lemma TakenTouched(m0: Cells, m4: Cells, m5: Cells, base: nat, h: State, c: nat, b: nat, s: Slab)
    requires c < SLAB_CACHE_SIZE && c < |h.lists| && h.lists[c] != [] && h.lists[c][0] == b && NoDup(h.lists[c])
    requires OnlyCountersAndItems(m0, m4, base, c, b) && PoppedIfEmpty(m4, m5, base, c, s, h.lists[c])
    requires ListNodesOk(base, b, h.lists[c]) && base + 64 * SLAB_CACHE_SIZE <= b
    ensures Touched(m0, m5, base, h, c, b)
  {
    PoppedCacheCells(m4, m5, base, c, b, s, h.lists[c]);
    hide PoppedIfEmpty, NoDup, ListNodesOk;
  }

  /** The stores of slab_alloc implement `TakeItem`. */
  lemma TakenRep(m0: Cells, m4: Cells, m5: Cells, base: nat, h: State, c: nat, b: nat, s: Slab, free: nat)
    requires Rep(m0, base, h) && c < SLAB_CACHE_SIZE && h.lists[c] != [] && b == h.lists[c][0]
    requires b in h.slabs && s == h.slabs[b] && s.free != [] && s.cls == c && PageBase(b)
    requires free + 1 == FreeSum(h.slabs, ClassSlabs(h, c)) && base + 64 * SLAB_CACHE_SIZE <= b
    requires SlabRep(m4, b, Taken(s)) && OnlyCountersAndItems(m0, m4, base, c, b)
    requires CacheRep(m4, base, c, h.lists[c], h.totals[c], free)
    requires PoppedIfEmpty(m4, m5, base, c, s, h.lists[c])
    ensures Rep(m5, base, TakeItem(h, c))
  {
    var h' := TakeItem(h, c);
    TakeItemInv(h, c);
    TakeItemSum(h, c);
    TakePages(h, c);
    ListNodesFine(m0, base, h, c, b);
    assert ListOk(h, c);
    assert h'.slabs[b] == Taken(s) && SlabOk(b, Taken(s)) && h'.totals[c] == h.totals[c];
    assert h'.lists[c] == if |s.free| == 1 then h.lists[c][1..] else h.lists[c];
    hide Inv, SlabsOk, ListOk, SlabOk, SlabRep, TakeItem, Taken, FreeSum, ClassSlabs, OneSlabStep, IsList, SizeOf;
    TakenTouched(m0, m4, m5, base, h, c, b, s);
    PoppedCacheCells(m4, m5, base, c, b, s, h.lists[c]);
    hide OnlyCountersAndItems, Touched, ListNodesOk;
    SlabFrame(m4, m5, b, h'.slabs[b]);
    assert CacheOk(m5, base, h', c);
    hide CacheOk, PoppedIfEmpty, CacheRep;
    RepStep(m0, m5, base, h, h', c, b);
  }

  // ---- giving an item back ----

  ghost function Given(s: Slab, a: nat): Slab {
    s.(free := [a] + s.free, live := s.live - {a})
  }

  lemma FreshItem(b: nat, s: Slab, a: nat)
    requires SlabOk(b, s) && b % PAGE_SIZE == 0 && a in s.live
    ensures FreshNode(FreeList(b), s.free, a)
    ensures b + SIZEOF_SLAB <= a && a + 32 <= b + PAGE_SIZE
  {
    assert a in Items(b, s.cls) && a !in Elems(s.free);
    FreeItemInPage(b, s.cls, a);
    MinSize(s.cls);
    forall n | n in Chain(FreeList(b), s.free) ensures Apart(a, n) {
      if n in s.free {
        assert n in Elems(s.free);
        ItemsDisjoint(b, s.cls, a, n);
      }
    }
  }

  /** list_push of the item on the slab's free list. */
  lemma PushedFree(m0: Cells, m1: Cells, b: nat, s: Slab, a: nat)
    requires SlabOk(b, s) && b % PAGE_SIZE == 0 && a in s.live && SlabRep(m0, b, s)
    requires OnlyNodes(m0, m1, [FreeList(b), a, Chain(FreeList(b), s.free)[1]])
    ensures SameOutside(m0, m1, b + 32, b + PAGE_SIZE) && Header(m1, b, s.cls) && Rd(m1, b + 24) == |s.free|
  {
    var first := Chain(FreeList(b), s.free)[1];
    FreshItem(b, s, a);
    assert first in Chain(FreeList(b), s.free);
    FreeNodeInPage(b, s, first);
    hide SlabOk, Chain, IsList, SizeOf, Total, ItemAt, FreshNode;
    ThreeNodes(m0, m1, FreeList(b), a, first);
    hide OnlyNodes;
  }

  /** The two counters of slab_free. */
  ghost function CountedUp(m: Cells, ca: nat, b: nat): Cells {
    var m' := m[b + 24 := (Rd(m, b + 24) + 1) % U32];
    m'[ca + 8 := (Rd(m', ca + 8) + 1) % U32]
  }

  lemma CountedUpCells(m: Cells, ca: nat, b: nat, free: nat, n: nat)
    requires ca + 16 <= b && Rd(m, ca + 8) == free % U32 && Rd(m, b + 24) == n && n + 1 < U32
    ensures var m' := CountedUp(m, ca, b);
            Rd(m', ca + 8) == (free + 1) % U32 && Rd(m', b + 24) == n + 1
            && forall a: nat :: a != ca + 8 && a != b + 24 ==> Rd(m', a) == Rd(m, a)
  {}

  lemma GivenCounters(m0: Cells, m1: Cells, base: nat, c: nat, b: nat, s: Slab, a: nat, list: seq<nat>,
                      total: nat, free: nat)
    requires c < SLAB_CACHE_SIZE && base + 64 * SLAB_CACHE_SIZE <= b && s.cls == c && |s.free| < PAGE_SIZE
    requires b + 32 <= a && forall n :: n in s.free ==> b + 32 <= n
    requires CacheRep(m0, base, c, list, total, free) && ListNodesOk(base, b, list)
    requires SameOutside(m0, m1, b + 32, b + PAGE_SIZE) && Header(m1, b, c)
    requires Rd(m1, b + 24) == |s.free| && IsList(m1, FreeList(b), [a] + s.free)
    ensures var m2 := CountedUp(m1, CacheAddr(base, c), b);
            SlabRep(m2, b, Given(s, a)) && OnlyCountersAndItems(m0, m2, base, c, b)
            && Rd(m2, b + 24) == |s.free| + 1 && Rd(m2, b + 20) == Total(Exp(c))
            && CacheRep(m2, base, c, list, total, free + 1)
  {
    var ca := CacheAddr(base, c);
    var m2 := CountedUp(m1, ca, b);
    hide IsList, Total, SizeOf, ItemAt;
    CountedUpCells(m1, ca, b, free, |s.free|);
    hide CountedUp;
    ScalarKeepsFree(m1, m2, b, [a] + s.free);
    CacheListKept(m0, m2, base, c, b, list);
  }

  /** The three outcomes of slab_free. */
  lemma GiveItemShape(h: State, c: nat, b: nat, a: nat)
    requires Inv(h) && c < SLAB_CACHE_SIZE && b in h.slabs && h.slabs[b].cls == c && a in h.slabs[b].live
    ensures var h' := GiveItem(h, b, a);
            |h'.lists| == |h.lists| == |h'.totals| == |h.totals| == SLAB_CACHE_SIZE && h'.totals == h.totals
            && (if h.slabs[b].free == []
                then b in h'.slabs && h'.slabs[b] == Given(h.slabs[b], a) && h'.lists[c] == [b] + h.lists[c]
                else if |h.slabs[b].free| + 1 == Total(Exp(c))
                then b !in h'.slabs && h'.lists[c] == Without(h.lists[c], b)
                else b in h'.slabs && h'.slabs[b] == Given(h.slabs[b], a) && h'.lists[c] == h.lists[c])
  {
    hide SlabOk, ListOk, Total;
  }

  /** What remains to be shown of the memory after slab_free. */
  lemma GivenRep(m0: Cells, m: Cells, base: nat, h: State, c: nat, b: nat, a: nat, free: nat)
    requires Rep(m0, base, h) && c < SLAB_CACHE_SIZE && b in h.slabs && h.slabs[b].cls == c && PageBase(b)
    requires a in h.slabs[b].live && base + 64 * SLAB_CACHE_SIZE <= b
    requires Touched(m0, m, base, h, c, b)
    requires var h' := GiveItem(h, b, a);
             c < |h'.lists| && (b in h'.slabs ==> h'.slabs[b].cls == c && SlabRep(m, b, h'.slabs[b]))
             && CacheRep(m, base, c, h'.lists[c], h.totals[c], free)
             && free + (if b in h'.slabs then 0 else Total(Exp(c))) == FreeSum(h.slabs, ClassSlabs(h, c)) + 1
    ensures Rep(m, base, GiveItem(h, b, a))
  {
    var h' := GiveItem(h, b, a);
    hide Rep, Inv, SlabRep, GiveItem, FreeSum, ClassSlabs, OneSlabStep, Total, Without, CacheRep, Touched, Given,
         Above, Pages, CacheOk;
    RepParts(m0, base, h);
    assert |h.totals| == SLAB_CACHE_SIZE by { RepCaches(m0, base, h); }
    GiveItemInv(h, b, a);
    GiveItemSum(h, b, a);
    GiveItemShape(h, c, b, a);
    GivePages(h, b, a);
    AboveLess(base, h, h');
    CacheOkFrom(m, base, h', c, h.totals[c], free);
    RepStep(m0, m, base, h, h', c, b);
  }

  lemma RepCaches(m: Cells, base: nat, h: State)
    requires Rep(m, base, h)
    ensures |h.lists| == |h.totals| == SLAB_CACHE_SIZE
  {}

  lemma CacheOkFrom(m: Cells, base: nat, h: State, c: nat, total: nat, free: nat)
    requires c < |h.lists| && c < |h.totals| && h.totals[c] == total
    requires FreeSum(h.slabs, ClassSlabs(h, c)) == free && CacheRep(m, base, c, h.lists[c], total, free)
    ensures CacheOk(m, base, h, c)
  {}

  lemma RepParts(m: Cells, base: nat, h: State)
    requires Rep(m, base, h)
    ensures Inv(h) && Above(base, h)
  {}

  lemma AboveLess(base: nat, h: State, h': State)
    requires Above(base, h) && Pages(h') <= Pages(h)
    ensures Above(base, h')
  {}

  /** The item was the slab's only free one: list_push of the slab. */
  lemma GivenPush(m0: Cells, m2: Cells, m3: Cells, base: nat, h: State, c: nat, b: nat, a: nat)
    requires Rep(m0, base, h) && c < SLAB_CACHE_SIZE && b in h.slabs && h.slabs[b].cls == c && PageBase(b)
    requires a in h.slabs[b].live && h.slabs[b].free == [] && base + 64 * SLAB_CACHE_SIZE <= b
    requires SlabRep(m2, b, Given(h.slabs[b], a)) && OnlyCountersAndItems(m0, m2, base, c, b)
    requires CacheRep(m2, base, c, h.lists[c], h.totals[c], FreeSum(h.slabs, ClassSlabs(h, c)) + 1)
    requires IsList(m3, SlabList(base, c), [b] + h.lists[c])
    requires OnlyNodes(m2, m3, [SlabList(base, c), b, Chain(SlabList(base, c), h.lists[c])[1]])
    ensures Rep(m3, base, GiveItem(h, b, a))
  {
    hide Inv, Rep, SlabOk, SlabRep, GiveItem, FreeSum, ClassSlabs, IsList, SizeOf, Chain, OnlyCountersAndItems,
         ListNodesOk, Touched, Without, Total, OnlyNodes, CacheRep, Given;
    var free := FreeSum(h.slabs, ClassSlabs(h, c)) + 1;
    CacheParts(m0, base, h, c);
    ListNodesFine(m0, base, h, c, b);
    FirstIsNode(m0, base, h, c, b);
    PushTouched(m0, m2, m3, base, h, c, b);
    PushedCounters(m2, m3, base, c, b, h.lists[c], h.totals[c], free);
    GivePushShape(m0, base, h, c, b, a);
    SlabFrame(m2, m3, b, Given(h.slabs[b], a));
    GivenRep(m0, m3, base, h, c, b, a, free);
  }

  lemma PushTouched(m0: Cells, m2: Cells, m3: Cells, base: nat, h: State, c: nat, b: nat)
    requires c < SLAB_CACHE_SIZE && c < |h.lists| && base + 64 * SLAB_CACHE_SIZE <= b
    requires OnlyCountersAndItems(m0, m2, base, c, b) && ListNodesOk(base, b, h.lists[c])
    requires var first := Chain(SlabList(base, c), h.lists[c])[1];
             first == TailOf(SlabList(base, c)) || (first in h.lists[c] && first != b)
    requires OnlyNodes(m2, m3, [SlabList(base, c), b, Chain(SlabList(base, c), h.lists[c])[1]])
    ensures Touched(m0, m3, base, h, c, b) && Agree(m2, m3, b + 16, b + PAGE_SIZE)
    ensures Agree(m2, m3, CacheAddr(base, c), CacheAddr(base, c) + 16)
  {
    var first := Chain(SlabList(base, c), h.lists[c])[1];
    hide Chain, OnlyCountersAndItems, ListNodesOk, Touched, Agree;
    ThreeNodes(m2, m3, SlabList(base, c), b, first);
    hide OnlyNodes;
    PushCells(m0, m2, m3, base, h, c, b, first);
  }

  /** The counters of the cache are not part of the list. */
  lemma PushedCounters(m2: Cells, m3: Cells, base: nat, c: nat, b: nat, list: seq<nat>, total: nat, free: nat)
    requires c < SLAB_CACHE_SIZE && CacheRep(m2, base, c, list, total, free)
    requires IsList(m3, SlabList(base, c), [b] + list)
    requires Agree(m2, m3, CacheAddr(base, c), CacheAddr(base, c) + 16)
    ensures CacheRep(m3, base, c, [b] + list, total, free)
  {
    hide IsList, SizeOf;
  }

  lemma GivePushShape(m: Cells, base: nat, h: State, c: nat, b: nat, a: nat)
    requires Rep(m, base, h) && c < SLAB_CACHE_SIZE && b in h.slabs && h.slabs[b].cls == c
    requires a in h.slabs[b].live && h.slabs[b].free == []
    ensures var h' := GiveItem(h, b, a);
            b in h'.slabs && h'.slabs[b] == Given(h.slabs[b], a) && Given(h.slabs[b], a).cls == c
            && c < |h'.lists| && h'.lists[c] == [b] + h.lists[c] && SlabOk(b, h'.slabs[b])
  {
    hide GiveItem, Total, Without, SlabOk;
    RepParts(m, base, h);
    RepCaches(m, base, h);
    assert SlabOk(b, h.slabs[b]);
    GivenSlab(b, h.slabs[b], a);
    hide Rep, Inv;
    GiveItemShape(h, c, b, a);
  }

  /** A slab without free items is not on its cache's list. */
  lemma FirstIsNode(m: Cells, base: nat, h: State, c: nat, b: nat)
    requires Rep(m, base, h) && c < SLAB_CACHE_SIZE && b in h.slabs && h.slabs[b].free == []
    ensures var first := Chain(SlabList(base, c), h.lists[c])[1];
            first == TailOf(SlabList(base, c)) || (first in h.lists[c] && first != b)
    ensures b !in h.lists[c]
  {
    assert ListOk(h, c);
  }

  lemma PushCells(m0: Cells, m2: Cells, m3: Cells, base: nat, h: State, c: nat, b: nat, first: nat)
    requires c < SLAB_CACHE_SIZE && c < |h.lists| && base + 64 * SLAB_CACHE_SIZE <= b
    requires OnlyCountersAndItems(m0, m2, base, c, b) && ListNodesOk(base, b, h.lists[c])
    requires first == TailOf(SlabList(base, c)) || (first in h.lists[c] && first != b)
    requires forall a: nat :: !InNode(a, SlabList(base, c)) && !InNode(a, b) && !InNode(a, first) ==>
                                Rd(m3, a) == Rd(m2, a)
    ensures Touched(m0, m3, base, h, c, b) && Agree(m2, m3, b + 16, b + PAGE_SIZE)
    ensures Agree(m2, m3, CacheAddr(base, c), CacheAddr(base, c) + 16)
  {}

  /** No step on a list is needed. */
  lemma GivenPlain(m0: Cells, m2: Cells, base: nat, h: State, c: nat, b: nat, a: nat)
    requires Rep(m0, base, h) && c < SLAB_CACHE_SIZE && b in h.slabs && h.slabs[b].cls == c && PageBase(b)
    requires a in h.slabs[b].live && h.slabs[b].free != [] && |h.slabs[b].free| + 1 != Total(Exp(c))
    requires base + 64 * SLAB_CACHE_SIZE <= b
    requires SlabRep(m2, b, Given(h.slabs[b], a)) && OnlyCountersAndItems(m0, m2, base, c, b)
    requires CacheRep(m2, base, c, h.lists[c], h.totals[c], FreeSum(h.slabs, ClassSlabs(h, c)) + 1)
    ensures Rep(m2, base, GiveItem(h, b, a))
  {
    GiveItemShape(h, c, b, a);
    hide Inv, Rep, SlabRep, GiveItem, FreeSum, ClassSlabs, IsList, SizeOf, Total, Without, CacheRep;
    assert Touched(m0, m2, base, h, c, b);
    hide OnlyCountersAndItems, Touched;
    GivenRep(m0, m2, base, h, c, b, a, FreeSum(h.slabs, ClassSlabs(h, c)) + 1);
  }

  lemma {:induction false} WithoutAt(s: seq<nat>, k: nat)
    requires NoDup(s) && k < |s|
    ensures Without(s, s[k]) == LinkedLists.RemoveAt(s, k)
  {
    if k > 0 {
      assert s[0] != s[k];
      WithoutAt(s[1..], k - 1);
    }
  }

  /** `cache->total_free -= slab->total;` */
  ghost function Subtracted(m: Cells, ca: nat, t: nat): Cells {
    m[ca + 8 := Minus(Rd(m, ca + 8), t)]
  }

  /** The slab has no live item left: list_remove, and its items leave the count. */
  lemma GivenDrop(m0: Cells, m2: Cells, m3: Cells, base: nat, h: State, c: nat, b: nat, a: nat, k: nat,
                  list: seq<nat>, total: nat, free: nat)
    requires Rep(m0, base, h) && c < SLAB_CACHE_SIZE && b in h.slabs && h.slabs[b].cls == c && PageBase(b)
    requires a in h.slabs[b].live && h.slabs[b].free != [] && |h.slabs[b].free| + 1 == Total(Exp(c))
    requires list == h.lists[c] && total == h.totals[c] && free == FreeSum(h.slabs, ClassSlabs(h, c)) + 1
    requires base + 64 * SLAB_CACHE_SIZE <= b && k < |list| && list[k] == b
    requires OnlyCountersAndItems(m0, m2, base, c, b) && CacheRep(m2, base, c, list, total, free)
    requires IsList(m3, SlabList(base, c), LinkedLists.RemoveAt(list, k))
    requires OnlyNodes(m2, m3, [Chain(SlabList(base, c), list)[k], Chain(SlabList(base, c), list)[k + 2]])
    ensures Rep(Subtracted(m3, CacheAddr(base, c), Total(Exp(c))), base, GiveItem(h, b, a))
  {
    hide Subtracted, Inv, Rep, GiveItem, FreeSum, ClassSlabs, IsList, SizeOf, Total, Without, NoDup, SlabRep,
         CacheRep, Touched, ListNodesOk, OnlyCountersAndItems, OnlyNodes, Chain, LinkedLists.RemoveAt, PageBase,
         Given, Agree, CacheAddr, SlabList;
    RepCaches(m0, base, h);
    DropFacts(m0, base, h, c, b, a, k);
    DropCells(m0, m2, m3, base, h, c, b, k);
    DropCount(m2, m3, base, c, b, list, k, total, free, Total(Exp(c)));
    DropRep(m0, Subtracted(m3, CacheAddr(base, c), Total(Exp(c))), base, h, c, b, a,
            LinkedLists.RemoveAt(list, k), free);
  }

  lemma DropRep(m0: Cells, m4: Cells, base: nat, h: State, c: nat, b: nat, a: nat, list: seq<nat>, free: nat)
    requires Rep(m0, base, h) && c < SLAB_CACHE_SIZE && b in h.slabs && h.slabs[b].cls == c && PageBase(b)
    requires a in h.slabs[b].live && base + 64 * SLAB_CACHE_SIZE <= b
    requires Touched(m0, m4, base, h, c, b)
    requires var h' := GiveItem(h, b, a);
             c < |h'.lists| && h'.lists[c] == list && b !in h'.slabs
    requires free == FreeSum(h.slabs, ClassSlabs(h, c)) + 1 && Total(Exp(c)) <= free
    requires CacheRep(m4, base, c, list, h.totals[c], free - Total(Exp(c)))
    ensures Rep(m4, base, GiveItem(h, b, a))
  {
    hide Inv, Rep, GiveItem, FreeSum, ClassSlabs, Total, CacheRep, Touched, PageBase, SlabRep;
    GivenRep(m0, m4, base, h, c, b, a, free - Total(Exp(c)));
  }

  lemma DropFacts(m: Cells, base: nat, h: State, c: nat, b: nat, a: nat, k: nat)
    requires Rep(m, base, h) && c < SLAB_CACHE_SIZE && b in h.slabs && h.slabs[b].cls == c && PageBase(b)
    requires a in h.slabs[b].live && h.slabs[b].free != [] && |h.slabs[b].free| + 1 == Total(Exp(c))
    requires k < |h.lists[c]| && h.lists[c][k] == b
    ensures Total(Exp(c)) <= FreeSum(h.slabs, ClassSlabs(h, c)) + 1
    ensures ListNodesOk(base, b, h.lists[c])
    ensures var h' := GiveItem(h, b, a);
            c < |h'.lists| && b !in h'.slabs && h'.lists[c] == LinkedLists.RemoveAt(h.lists[c], k)
  {
    hide Total, FreeSum, ClassSlabs, OneSlabStep, SlabRep, ListNodesOk, Without, LinkedLists.RemoveAt;
    GiveItemShape(h, c, b, a);
    GiveItemSum(h, b, a);
    ListNodesFine(m, base, h, c, b);
    assert ListOk(h, c);
    WithoutAt(h.lists[c], k);
  }

  lemma DropCells(m0: Cells, m2: Cells, m3: Cells, base: nat, h: State, c: nat, b: nat, k: nat)
    requires c < SLAB_CACHE_SIZE && c < |h.lists| && base + 64 * SLAB_CACHE_SIZE <= b
    requires k < |h.lists[c]| && OnlyCountersAndItems(m0, m2, base, c, b) && ListNodesOk(base, b, h.lists[c])
    requires OnlyNodes(m2, m3, [Chain(SlabList(base, c), h.lists[c])[k], Chain(SlabList(base, c), h.lists[c])[k + 2]])
    ensures Touched(m0, Subtracted(m3, CacheAddr(base, c), Total(Exp(c))), base, h, c, b)
    ensures Agree(m2, m3, CacheAddr(base, c), CacheAddr(base, c) + 16)
  {
    var list := h.lists[c];
    var p, n := Chain(SlabList(base, c), list)[k], Chain(SlabList(base, c), list)[k + 2];
    assert p == SlabList(base, c) || p in list;
    assert n == TailOf(SlabList(base, c)) || n in list;
    hide Chain, Total;
    TwoNodes(m2, m3, p, n);
    hide OnlyNodes;
  }

  lemma DropCount(m2: Cells, m3: Cells, base: nat, c: nat, b: nat, list: seq<nat>, k: nat,
                  total: nat, free: nat, t: nat)
    requires c < SLAB_CACHE_SIZE && k < |list| && t <= free && CacheRep(m2, base, c, list, total, free)
    requires IsList(m3, SlabList(base, c), LinkedLists.RemoveAt(list, k)) && ListNodesOk(base, b, list)
    requires Agree(m2, m3, CacheAddr(base, c), CacheAddr(base, c) + 16)
    ensures CacheRep(Subtracted(m3, CacheAddr(base, c), t), base, c, LinkedLists.RemoveAt(list, k), total, free - t)
  {
    var m4 := Subtracted(m3, CacheAddr(base, c), t);
    hide IsList, SizeOf;
    MinusMod(free, t);
    assert forall n :: n in LinkedLists.RemoveAt(list, k) ==> n in list;
    CountersKeepList(m3, m4, base, c, LinkedLists.RemoveAt(list, k));
  }

  lemma MinusMod(free: nat, t: nat)
    requires t <= free
    ensures Minus(free % U32, t) == (free - t) % U32
  {}
}
