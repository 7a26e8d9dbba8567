/** What palloc and pfree do to a page pool, and what holds over every run of them on
    the three physical pools of init_memory.
  */
module PoolRuns {
  import opened Words
  import opened Layout
  import opened Bitmaps

  datatype PoolType = Mem4K | User2M | Kernel2M

  function PSize(t: PoolType): (size: nat)
    ensures 0 < size <= PAGE_SIZE
  {
    if t.Mem4K? then PAGE_SIZE_4K else PAGE_SIZE
  }

  /** addr_start, the page size, pool_size and the bits of a pool. */
  datatype PoolState = PoolState(start: nat, size: nat, pages: nat, bits: seq<bool>)

  function PageAddr(s: PoolState, k: nat): nat { s.start + k * s.size }

  function PageNumber(s: PoolState, addr: nat): nat
    requires s.start <= addr && 0 < s.size
  {
    DivNat(addr - s.start, s.size);
    (addr - s.start) / s.size
  }

  /** The range that pfree accepts. */
  predicate InPool(s: PoolState, addr: nat) {
    s.start <= addr < s.start + s.pages * s.size
  }

  // ---- the contracts of palloc and pfree ----

  /** palloc: the first free page is taken. A full pool answers its first page. */
  ghost predicate PallocDid(s: PoolState, s': PoolState, addr: nat) {
    if HasRun(s.bits, 1)
    then exists k: nat ::
           FirstRun(s.bits, k, 1) && addr == PageAddr(s, k) && s' == s.(bits := SetRange(s.bits, k, 1, true))
    else addr == s.start && s' == s
  }

  /** pfree writes the bit of the page number without comparing it with the number of bits. */
  ghost predicate PfreeAllowed(s: PoolState, addr: nat)
    requires 0 < s.size
  {
    InPool(s, addr) ==> PageNumber(s, addr) < |s.bits|
  }

  /** pfree: exactly the addresses of the pool's range are accepted, and the page's bit cleared. */
  ghost predicate PfreeDid(s: PoolState, s': PoolState, addr: nat, ok: bool)
    requires 0 < s.size && PfreeAllowed(s, addr)
  {
    (ok <==> InPool(s, addr))
    && s' == if ok then s.(bits := SetRange(s.bits, PageNumber(s, addr), 1, false)) else s
  }

  lemma NumberOfPage(s: PoolState, k: nat)
    requires 0 < s.size
    ensures PageNumber(s, PageAddr(s, k)) == k
  {
    DivUnique(k * s.size, s.size, k, 0);
  }

  lemma PageInPool(s: PoolState, k: nat)
    requires 0 < s.size && k < s.pages
    ensures InPool(s, PageAddr(s, k)) && PageAddr(s, k) + s.size <= s.start + s.pages * s.size
  {
    MulMono(k + 1, s.pages, s.size);
  }

  lemma PagesInOrder(s: PoolState, j: nat, k: nat)
    requires j < k
    ensures PageAddr(s, j) + s.size <= PageAddr(s, k)
  {
    MulMono(j + 1, k, s.size);
  }

  // ---- pages behind the last bit ----

  /** pfree stays inside the bitmap for every address that it accepts exactly when the
      pool has no more pages than its bitmap has bits. */
  lemma EveryAddressAllowed(s: PoolState)
    requires 0 < s.size
    ensures (forall addr :: PfreeAllowed(s, addr)) <==> s.pages <= |s.bits|
  {
    if s.pages <= |s.bits| {
      forall addr ensures PfreeAllowed(s, addr) {
        if InPool(s, addr) {
          NumberBelow(s, addr);
        }
      }
    } else {
      PageInPool(s, |s.bits|);
      NumberOfPage(s, |s.bits|);
      assert !PfreeAllowed(s, PageAddr(s, |s.bits|));
    }
  }

  lemma NumberBelow(s: PoolState, addr: nat)
    requires 0 < s.size && InPool(s, addr)
    ensures PageNumber(s, addr) < s.pages
  {
    DivNat(addr - s.start, s.size);
    if s.pages <= PageNumber(s, addr) {
      MulMono(s.pages, PageNumber(s, addr), s.size);
    }
  }

  /** With 25 pages of memory the user pool has nine pages but eight bits: freeing its last
      page is accepted, and the bit it clears is bit 0 of the next byte, the core pool's. */
  lemma TailPageFreed()
    ensures var (physSize, kernelEnd) := (0x340_0000, KERNEL_BASE + 0x12_0000);
            var p := InitMemory(physSize, kernelEnd);
            var s := PoolState(p.startUser, PAGE_SIZE, p.pagesUser, AllFree(8 * p.bytesUser));
            RoomAboveKernel(physSize, kernelEnd) && p.pagesUser == 9 && p.bytesUser == 1 && 0 < p.bytesCore
            && InPool(s, PageAddr(s, 8)) && !PfreeAllowed(s, PageAddr(s, 8))
            && p.bitmapUser + PageNumber(s, PageAddr(s, 8)) / 8 == p.bitmapCore
            && PageNumber(s, PageAddr(s, 8)) % 8 == 0
  {
    var (physSize, kernelEnd) := (0x340_0000, KERNEL_BASE + 0x12_0000);
    assert AlignUp(kernelEnd - KERNEL_BASE, PAGE_SIZE) == 0x20_0000;
    PoolSizes(physSize, kernelEnd);
    TotalPages(physSize, kernelEnd);
    BitmapPlaces(physSize, kernelEnd);
    hide InitMemory, AlignUp, RoomAboveKernel, AllFree;
    var p := InitMemory(physSize, kernelEnd);
    var s := PoolState(p.startUser, PAGE_SIZE, p.pagesUser, AllFree(8 * p.bytesUser));
    NumberOfPage(s, 8);
    PageInPool(s, 8);
    hide PageAddr, PageNumber, InPool;
  }

  // ---- one pool and the pages it has handed out ----

  /** `held` are the addresses handed out and not yet given back. */
  datatype Record = Record(pool: PoolState, held: set<nat>)

  /** palloc is called while the pool has a free page. */
  ghost predicate TakeStep(r: Record, addr: nat, r': Record) {
    HasRun(r.pool.bits, 1) && PallocDid(r.pool, r'.pool, addr) && r'.held == r.held + {addr}
  }

  /** pfree is called with an outstanding page; it does what its contract says if the
      call is allowed. */
  ghost predicate GiveStep(r: Record, addr: nat, ok: bool, r': Record)
    requires 0 < r.pool.size
  {
    addr in r.held && (PfreeAllowed(r.pool, addr) ==> PfreeDid(r.pool, r'.pool, addr, ok))
    && r'.held == r.held - {addr}
  }

  ghost predicate IsHeldPage(s: PoolState, addr: nat) {
    exists k: nat :: k in Ones(s.bits) && addr == PageAddr(s, k)
  }

  /** The outstanding pages are exactly the pages of the set bits. */
  ghost predicate Exact(r: Record) {
    (forall k: nat :: k in Ones(r.pool.bits) ==> PageAddr(r.pool, k) in r.held)
    && forall a :: a in r.held ==> IsHeldPage(r.pool, a)
  }

  ghost predicate RecordGood(r: Record) {
    0 < r.pool.size && |r.pool.bits| <= r.pool.pages && Exact(r)
  }

  /** palloc answers a page that was not outstanding. */
  lemma TakeGood(r: Record, addr: nat, r': Record)
    requires RecordGood(r) && TakeStep(r, addr, r')
    ensures RecordGood(r') && addr !in r.held && r'.pool == r.pool.(bits := r'.pool.bits)
  {
    var s := r.pool;
    var k: nat :| FirstRun(s.bits, k, 1) && addr == PageAddr(s, k)
                  && r'.pool == s.(bits := SetRange(s.bits, k, 1, true));
    SetOneOnes(s.bits, k);
    hide HasRun, FirstRun, SetRange, Ones, PallocDid, PageAddr;
    if addr in r.held {
      var j: nat :| j in Ones(s.bits) && addr == PageAddr(s, j);
      SameAddress(s, j, k);
    }
    forall a | a in r'.held ensures IsHeldPage(r'.pool, a) {
      if a != addr {
        var j: nat :| j in Ones(s.bits) && a == PageAddr(s, j);
        SamePlace(s, r'.pool, j);
      } else {
        SamePlace(s, r'.pool, k);
      }
    }
    forall j: nat | j in Ones(r'.pool.bits) ensures PageAddr(r'.pool, j) in r'.held {
      SamePlace(s, r'.pool, j);
    }
  }

  /** pfree of an outstanding page is allowed and accepted, and clears exactly its bit. */
  lemma GiveGood(r: Record, addr: nat, ok: bool, r': Record)
    requires RecordGood(r) && GiveStep(r, addr, ok, r')
    ensures RecordGood(r') && PfreeAllowed(r.pool, addr) && r'.pool == r.pool.(bits := r'.pool.bits)
    ensures ClearsItsBit(r.pool, r'.pool, addr, ok)
  {
    var s := r.pool;
    assert IsHeldPage(s, addr);
    var k: nat :| k in Ones(s.bits) && addr == PageAddr(s, k);
    NumberOfPage(s, k);
    PageInPool(s, k);
    ClearRangeOnes(s.bits, k, 1);
    assert Range(k, 1) == {k};
    hide SetRange, Ones, PageAddr, PageNumber, InPool;
    forall a | a in r'.held ensures IsHeldPage(r'.pool, a) {
      var j: nat :| j in Ones(s.bits) && a == PageAddr(s, j);
      SamePlace(s, r'.pool, j);
    }
    forall j: nat | j in Ones(r'.pool.bits) ensures PageAddr(r'.pool, j) in r'.held {
      SamePlace(s, r'.pool, j);
      if PageAddr(s, j) == addr {
        SameAddress(s, j, k);
      }
    }
  }

  lemma SamePlace(s: PoolState, s': PoolState, k: nat)
    requires s'.start == s.start && s'.size == s.size
    ensures PageAddr(s', k) == PageAddr(s, k)
  {}

  lemma SameAddress(s: PoolState, j: nat, k: nat)
    requires 0 < s.size && PageAddr(s, j) == PageAddr(s, k)
    ensures j == k
  {
    NumberOfPage(s, j);
    NumberOfPage(s, k);
    hide PageAddr, PageNumber;
  }

  /** Without a free page palloc answers the pool's first page, which is outstanding. */
  lemma FullPoolAnswersHeldPage(r: Record, r': PoolState, addr: nat)
    requires RecordGood(r) && 0 < |r.pool.bits| && !HasRun(r.pool.bits, 1) && PallocDid(r.pool, r', addr)
    ensures addr in r.held && r' == r.pool
  {
    var s := r.pool;
    assert !FreeRun(s.bits, 0, 1);
    assert 0 in Ones(s.bits) && PageAddr(s, 0) in r.held;
  }

  // ---- runs over the three pools ----

  datatype World = World(four: Record, user: Record, core: Record)

  function Of(w: World, t: PoolType): Record {
    match t
    case Mem4K => w.four
    case User2M => w.user
    case Kernel2M => w.core
  }

  /** A call and its answer. */
  datatype Op = Take(t: PoolType, addr: nat) | Give(t: PoolType, addr: nat, ok: bool)

  /** One call of palloc or pfree. Whatever a call that is not allowed does, it may do
      to all pools. */
  ghost predicate Step(w: World, op: Op, w': World)
    requires 0 < Of(w, op.t).pool.size
  {
    var (r, r') := (Of(w, op.t), Of(w', op.t));
    (match op
     case Take(_, addr) => TakeStep(r, addr, r')
     case Give(_, addr, ok) => GiveStep(r, addr, ok, r'))
    && ((op.Give? ==> PfreeAllowed(r.pool, op.addr)) ==> forall u :: u != op.t ==> Of(w', u) == Of(w, u))
  }

  /** The pools follow each other. */
  ghost predicate Placed(w: World) {
    (forall t :: Of(w, t).pool.size == PSize(t))
    && w.user.pool.start + w.user.pool.pages * PAGE_SIZE <= w.core.pool.start
    && w.core.pool.start + w.core.pool.pages * PAGE_SIZE <= w.four.pool.start
  }

  ghost predicate Good(w: World) {
    Placed(w) && forall t :: RecordGood(Of(w, t))
  }

  lemma StepGood(w: World, op: Op, w': World)
    requires Good(w) && Step(w, op, w')
    ensures Good(w')
  {
    hide TakeStep, GiveStep, RecordGood, PfreeAllowed, Placed;
    PoolSize(w, op.t);
    match op
    case Take(t, addr) =>
      TakeGood(Of(w, t), addr, Of(w', t));
      StillPlaced(w, w', t);
    case Give(t, addr, ok) =>
      GiveGood(Of(w, t), addr, ok, Of(w', t));
      StillPlaced(w, w', t);
  }

  lemma PoolSize(w: World, t: PoolType)
    requires Placed(w)
    ensures 0 < Of(w, t).pool.size
  {}

  lemma StillPlaced(w: World, w': World, t: PoolType)
    requires Placed(w) && Of(w', t).pool == Of(w, t).pool.(bits := Of(w', t).pool.bits)
    requires forall u :: u != t ==> Of(w', u) == Of(w, u)
    ensures Placed(w')
  {
    assert Of(w', Mem4K).pool == w'.four.pool && Of(w', User2M).pool == w'.user.pool;
    assert Of(w', Kernel2M).pool == w'.core.pool;
  }

  // ---- what the clients of palloc rely on ----

  ghost predicate Held(w: World, t: PoolType, addr: nat) {
    addr in Of(w, t).held
  }

  predicate Apart(a: nat, n: nat, b: nat, k: nat) {
    a + n <= b || b + k <= a
  }

  /** The page lies in its pool's range, and pfree may be called with it. */
  ghost predicate PageSafe(s: PoolState, addr: nat)
    requires 0 < s.size
  {
    InPool(s, addr) && addr + s.size <= s.start + s.pages * s.size && PfreeAllowed(s, addr)
  }

  /** Outstanding pages of all pools are pairwise disjoint and lie in their pools. */
  ghost predicate PagesSafe(w: World) {
    (forall t, a :: Held(w, t, a) ==> 0 < Of(w, t).pool.size && PageSafe(Of(w, t).pool, a))
    && forall t, a, u, b :: Held(w, t, a) && Held(w, u, b) && (t != u || a != b) ==> Apart(a, PSize(t), b, PSize(u))
  }

  /** The call is accepted and clears the bit of that page and no other. */
  ghost predicate ClearsItsBit(s: PoolState, s': PoolState, addr: nat, ok: bool)
    requires 0 < s.size
  {
    ok && InPool(s, addr)
    && var k := PageNumber(s, addr);
       addr == PageAddr(s, k) && k in Ones(s.bits) && Ones(s'.bits) == Ones(s.bits) - {k}
  }

  lemma HeldSafe(r: Record, a: nat)
    requires RecordGood(r) && a in r.held
    ensures PageSafe(r.pool, a)
  {
    assert IsHeldPage(r.pool, a);
    var k: nat :| k in Ones(r.pool.bits) && a == PageAddr(r.pool, k);
    PageInPool(r.pool, k);
    NumberOfPage(r.pool, k);
    hide PageAddr, PageNumber, InPool;
  }

  lemma HeldApart(r: Record, a: nat, b: nat)
    requires RecordGood(r) && a in r.held && b in r.held && a != b
    ensures Apart(a, r.pool.size, b, r.pool.size)
  {
    var s := r.pool;
    assert IsHeldPage(s, a) && IsHeldPage(s, b);
    var j: nat :| j in Ones(s.bits) && a == PageAddr(s, j);
    var k: nat :| k in Ones(s.bits) && b == PageAddr(s, k);
    if j < k {
      PagesInOrder(s, j, k);
    } else if k < j {
      PagesInOrder(s, k, j);
    }
    hide PageAddr, Ones;
  }

  lemma GoodSafe(w: World)
    requires Good(w)
    ensures PagesSafe(w)
  {
    hide RecordGood, PageSafe, Apart;
    forall t, a | Held(w, t, a) ensures 0 < Of(w, t).pool.size && PageSafe(Of(w, t).pool, a) {
      PoolSize(w, t);
      HeldSafe(Of(w, t), a);
    }
    forall t, a, u, b | Held(w, t, a) && Held(w, u, b) && (t != u || a != b)
      ensures Apart(a, PSize(t), b, PSize(u))
    {
      if t == u {
        HeldApart(Of(w, t), a, b);
      } else {
        HeldSafe(Of(w, t), a);
        HeldSafe(Of(w, u), b);
        OtherPool(w, t, a, u, b);
      }
    }
  }

  lemma OtherPool(w: World, t: PoolType, a: nat, u: PoolType, b: nat)
    requires Placed(w) && t != u && 0 < Of(w, t).pool.size && 0 < Of(w, u).pool.size
    requires PageSafe(Of(w, t).pool, a) && PageSafe(Of(w, u).pool, b)
    ensures Apart(a, PSize(t), b, PSize(u))
  {
    hide PfreeAllowed;
  }

  lemma GoodPlaced(w: World)
    requires Good(w)
    ensures Placed(w)
  {
    hide RecordGood;
  }

  lemma HeldAllowed(w: World, t: PoolType, addr: nat)
    requires Good(w) && Held(w, t, addr)
    ensures 0 < Of(w, t).pool.size && PfreeAllowed(Of(w, t).pool, addr)
  {
    PoolSize(w, t);
    hide RecordGood;
    HeldSafe(Of(w, t), addr);
  }

  function WithPool(w: World, t: PoolType, r: Record): World {
    match t
    case Mem4K => w.(four := r)
    case User2M => w.(user := r)
    case Kernel2M => w.(core := r)
  }

  /** The pools that init_memory sets up, empty, with bitmaps of the computed sizes. */
  ghost function InitialWorld(p: Pools): World {
    World(Record(PoolState(p.start4k, PAGE_SIZE_4K, p.pages4k, AllFree(8 * p.bytes4k)), {}),
          Record(PoolState(p.startUser, PAGE_SIZE, p.pagesUser, AllFree(8 * p.bytesUser)), {}),
          Record(PoolState(p.startCore, PAGE_SIZE, p.pagesCore, AllFree(8 * p.bytesCore)), {}))
  }

  ghost function AllFree(n: nat): (bits: seq<bool>)
    ensures |bits| == n && Ones(bits) == {}
  {
    seq(n, _ => false)
  }

  lemma InitialGood(physSize: nat, kernelEnd: nat)
    requires RoomAboveKernel(physSize, kernelEnd)
    ensures Good(InitialWorld(InitMemory(physSize, kernelEnd)))
  {
    PoolsPartitionMemory(physSize, kernelEnd);
    hide InitMemory, RoomAboveKernel, AllFree, Ones;
  }

  /** Over every run of palloc, while the pool has a free page, and pfree of outstanding
      pages, from the pools of init_memory: outstanding pages never overlap, within a
      pool and across pools, each lies in its pool's range, and pfree may be called with
      each of them; palloc answers pages that were not outstanding, and pfree clears
      exactly the bit of its page. */
  lemma {:induction false} PoolRunSafe(physSize: nat, kernelEnd: nat, worlds: seq<World>, ops: seq<Op>)
    requires RoomAboveKernel(physSize, kernelEnd)
    requires |worlds| == |ops| + 1 && worlds[0] == InitialWorld(InitMemory(physSize, kernelEnd))
    requires forall i :: 0 <= i < |ops| ==> Good(worlds[i]) ==> Step(worlds[i], ops[i], worlds[i + 1])
    ensures forall i :: 0 <= i < |worlds| ==> Good(worlds[i]) && PagesSafe(worlds[i])
    ensures forall i :: 0 <= i < |ops| && ops[i].Take? ==> !Held(worlds[i], ops[i].t, ops[i].addr)
    ensures forall i :: 0 <= i < |ops| && ops[i].Give? ==>
              var (r, r') := (Of(worlds[i], ops[i].t), Of(worlds[i + 1], ops[i].t));
              0 < r.pool.size && ClearsItsBit(r.pool, r'.pool, ops[i].addr, ops[i].ok)
  {
    InitialGood(physSize, kernelEnd);
    hide InitMemory, InitialWorld, RoomAboveKernel, Good, PagesSafe, Step, Held, ClearsItsBit;
    for n := 0 to |ops|
      invariant forall i :: 0 <= i <= n ==> Good(worlds[i])
    {
      StepGood(worlds[n], ops[n], worlds[n + 1]);
    }
    forall i | 0 <= i < |worlds| ensures PagesSafe(worlds[i]) {
      GoodSafe(worlds[i]);
    }
    forall i | 0 <= i < |ops| && ops[i].Take? ensures !Held(worlds[i], ops[i].t, ops[i].addr) {
      TakenWasFree(worlds[i], ops[i], worlds[i + 1]);
    }
    forall i | 0 <= i < |ops| && ops[i].Give?
      ensures var (r, r') := (Of(worlds[i], ops[i].t), Of(worlds[i + 1], ops[i].t));
              0 < r.pool.size && ClearsItsBit(r.pool, r'.pool, ops[i].addr, ops[i].ok)
    {
      GivenIsCleared(worlds[i], ops[i], worlds[i + 1]);
    }
  }

  lemma TakenWasFree(w: World, op: Op, w': World)
    requires Good(w) && Step(w, op, w') && op.Take?
    ensures !Held(w, op.t, op.addr)
  {
    hide RecordGood, TakeStep;
    TakeGood(Of(w, op.t), op.addr, Of(w', op.t));
  }

  lemma GivenIsCleared(w: World, op: Op, w': World)
    requires Good(w) && Step(w, op, w') && op.Give?
    ensures 0 < Of(w, op.t).pool.size
    ensures ClearsItsBit(Of(w, op.t).pool, Of(w', op.t).pool, op.addr, op.ok)
  {
    hide RecordGood, GiveStep, ClearsItsBit;
    GiveGood(Of(w, op.t), op.addr, op.ok, Of(w', op.t));
  }

  /** No two pages of the pools overlap, outstanding or not. */
  lemma PoolsDisjoint(physSize: nat, kernelEnd: nat, t: PoolType, i: nat, u: PoolType, j: nat)
    requires RoomAboveKernel(physSize, kernelEnd) && (t != u || i != j)
    ensures var w := InitialWorld(InitMemory(physSize, kernelEnd));
            var (s, z) := (Of(w, t).pool, Of(w, u).pool);
            i < s.pages && j < z.pages ==> Apart(PageAddr(s, i), PSize(t), PageAddr(z, j), PSize(u))
  {
    InitialGood(physSize, kernelEnd);
    var w := InitialWorld(InitMemory(physSize, kernelEnd));
    hide InitMemory, RoomAboveKernel, InitialWorld, RecordGood;
    var (s, z) := (Of(w, t).pool, Of(w, u).pool);
    if i < s.pages && j < z.pages {
      PageInPool(s, i);
      PageInPool(z, j);
      if t == u && i < j {
        PagesInOrder(s, i, j);
      } else if t == u {
        PagesInOrder(s, j, i);
      }
      hide PageAddr;
    }
  }
}
