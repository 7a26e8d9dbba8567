/** kernel/memory/memory.c: the page pools, the page-table edits and the
    allocation of mapped virtual pages.
  */
module PageManager {
  import opened Words
  import opened Layout
  import opened Bitmaps
  import opened PoolRuns
  import opened PageTables
  import opened TableEdits
  import opened PagerModel
  import opened PagerTheorems
  import opened Boot

  class Pool {
    const bitmap: Bitmap
    const poolSize: nat
    const addrStart: nat

    constructor (buffer: array<bv8>, poolSize: nat, addrStart: nat)
      requires 8 * buffer.Length < 0x8000_0000
      modifies buffer
      ensures bitmap.Valid() && bitmap.bytes == buffer
      ensures this.poolSize == poolSize && this.addrStart == addrStart
      ensures forall k :: 0 <= k < |bitmap.Bits()| ==> !bitmap.Bits()[k]
    {
      bitmap := new Bitmap(buffer);
      this.poolSize := poolSize;
      this.addrStart := addrStart;
    }
  }

  /** A pool as init_memory leaves it. */
  ghost predicate Empty(pool: Pool, start: nat, pages: nat, bytes: nat)
    reads pool.bitmap.bytes
  {
    pool.addrStart == start && pool.poolSize == pages && pool.bitmap.bytes.Length == bytes
    && forall k :: 0 <= k < |pool.bitmap.Bits()| ==> !pool.bitmap.Bits()[k]
  }

  class Pager {
    const geo: Geo
    const virt: Pool
    const core: Pool
    const user: Pool
    const four: Pool
    var mem: Frames
    ghost var role: Roles
    ghost var phys: map<nat, nat>

    /** The state after init_memory's pools are set up on the loader's page tables. The
        bitmaps are cleared in physical memory from 0x8000 on; as long as they end below
        the page tables they share no memory with any table and are kept as four arrays.
        Above 34515 pages `mem` is an idealisation (`AfterBitmaps`); what counts there is
        that the state is not valid. */
    constructor (physSize: nat, kernelEnd: nat, boot: Frames,
                 buf4k: array<bv8>, bufUser: array<bv8>, bufCore: array<bv8>, bufVirt: array<bv8>)
      requires Bootable(physSize, kernelEnd) && BootTables(boot)
      requires var p := InitMemory(physSize, kernelEnd);
               buf4k.Length == p.bytes4k && bufUser.Length == p.bytesUser
               && bufCore.Length == p.bytesCore && bufVirt.Length == p.bytesCore
      requires buf4k != bufUser && buf4k != bufCore && buf4k != bufVirt
      requires bufUser != bufCore && bufUser != bufVirt && bufCore != bufVirt
      modifies buf4k, bufUser, bufCore, bufVirt
      ensures Shape() && geo == BootGeo(physSize, kernelEnd)
      ensures mem == AfterBitmaps(boot, InitMemory(physSize, kernelEnd))
      ensures Valid() <==> InitMemory(physSize, kernelEnd).totalPages <= 34515
      ensures virt.bitmap.bytes == bufVirt && core.bitmap.bytes == bufCore
      ensures user.bitmap.bytes == bufUser && four.bitmap.bytes == buf4k
      ensures Ones(Snapshot().virt) == {} && Ones(Snapshot().core) == {} && Ones(Snapshot().four) == {}
      ensures Mirrors(InitialWorld(InitMemory(physSize, kernelEnd)))
    {
      PoolsPartitionMemory(physSize, kernelEnd);
      PoolSizes(physSize, kernelEnd);
      BootSizes(physSize, kernelEnd);
      hide InitMemory, GeoOk, Inv, BootTables, Bootable, RoomAboveKernel, AfterBitmaps, Present, InitialWorld, Mirrors,
           PoolView, Ones;
      var p := InitMemory(physSize, kernelEnd);
      four := new Pool(buf4k, p.pages4k, p.start4k);
      user := new Pool(bufUser, p.pagesUser, p.startUser);
      core := new Pool(bufCore, p.pagesCore, p.startCore);
      virt := new Pool(bufVirt, p.pagesCore, p.startVirt);
      geo := BootGeo(physSize, kernelEnd);
      mem := AfterBitmaps(boot, p);
      role := BOOT_ROLES;
      phys := map[];
      new;
      AllClear(virt.bitmap.Bits());
      AllClear(core.bitmap.Bits());
      AllClear(four.bitmap.Bits());
      StartValid(physSize, kernelEnd, boot);
      EmptyWorld(p);
    }

    /** On empty pools the invariant holds exactly if the boot tables have survived. */
    lemma StartValid(physSize: nat, kernelEnd: nat, boot: Frames)
      requires Bootable(physSize, kernelEnd) && BootTables(boot) && Shape() && geo == BootGeo(physSize, kernelEnd)
      requires mem == AfterBitmaps(boot, InitMemory(physSize, kernelEnd)) && role == BOOT_ROLES && phys == map[]
      requires Ones(Snapshot().virt) == {} && Ones(Snapshot().core) == {} && Ones(Snapshot().four) == {}
      ensures Valid() <==> InitMemory(physSize, kernelEnd).totalPages <= 34515
    {
      BootGeoOk(physSize, kernelEnd);
      BitmapsSpareTables(physSize, kernelEnd, boot);
      hide InitMemory, GeoOk, Inv, BootTables, Bootable, RoomAboveKernel, AfterBitmaps, Present, Ones, KernelMapped;
      if InitMemory(physSize, kernelEnd).totalPages <= 34515 {
        BootInv(geo, Snapshot());
        BootKernelMapped(geo, mem);
      } else {
        NoTablesNoInv(geo, Snapshot());
      }
    }

    /** The constants agree with the geometry and no two bitmaps share memory. */
    ghost predicate Shape() {
      virt.bitmap.Valid() && core.bitmap.Valid() && user.bitmap.Valid() && four.bitmap.Valid()
      && virt.bitmap.bytes != core.bitmap.bytes && virt.bitmap.bytes != user.bitmap.bytes
      && virt.bitmap.bytes != four.bitmap.bytes && core.bitmap.bytes != user.bitmap.bytes
      && core.bitmap.bytes != four.bitmap.bytes && user.bitmap.bytes != four.bitmap.bytes
      && geo.pages == 8 * virt.bitmap.bytes.Length == 8 * core.bitmap.bytes.Length
      && geo.frames == 8 * four.bitmap.bytes.Length
      && virt.addrStart == geo.virtStart && core.addrStart == geo.coreStart
      && four.addrStart == geo.fourStart && user.addrStart == geo.userStart
      && geo.pages <= core.poolSize && geo.frames <= four.poolSize
      && 8 * user.bitmap.bytes.Length <= user.poolSize
      && geo.userStart + user.poolSize * PAGE_SIZE == geo.coreStart
    }

    ghost function Snapshot(): View
      reads this, virt.bitmap.bytes, core.bitmap.bytes, four.bitmap.bytes
    {
      View(virt.bitmap.Bits(), core.bitmap.Bits(), four.bitmap.Bits(), mem, role, phys)
    }

    ghost predicate Valid()
      reads this, virt.bitmap.bytes, core.bitmap.bytes, four.bitmap.bytes
    {
      Shape() && Inv(geo, Snapshot()) && KernelMapped(geo, mem) && geo.virtStart == KERNEL_BASE + geo.userStart
    }

    function PoolOf(t: PoolType): Pool {
      match t
      case Mem4K => four
      case User2M => user
      case Kernel2M => core
    }

    /** A pool as the run theorems of `PoolRuns` see it. */
    ghost function PoolView(t: PoolType): PoolState
      reads PoolOf(t).bitmap.bytes
    {
      PoolState(PoolOf(t).addrStart, PSize(t), PoolOf(t).poolSize, PoolOf(t).bitmap.Bits())
    }

    /** palloc: one physical page, first fit. A full pool answers its first page. */
    method Palloc(t: PoolType) returns (addr: nat, ghost idx: nat)
      requires Shape()
      modifies PoolOf(t).bitmap.bytes
      ensures IsAllocIndex(old(PoolOf(t).bitmap.Bits()), 1, idx)
      ensures addr == PoolOf(t).addrStart + idx * PSize(t)
      ensures HasRun(old(PoolOf(t).bitmap.Bits()), 1) ==>
                FreeRun(old(PoolOf(t).bitmap.Bits()), idx, 1)
                && PoolOf(t).bitmap.Bits() == SetRange(old(PoolOf(t).bitmap.Bits()), idx, 1, true)
      ensures !HasRun(old(PoolOf(t).bitmap.Bits()), 1) ==>
                addr == PoolOf(t).addrStart && PoolOf(t).bitmap.Bits() == old(PoolOf(t).bitmap.Bits())
      ensures PallocDid(old(PoolView(t)), PoolView(t), addr)
    {
      ghost var s := PoolView(t);
      var pool := PoolOf(t);
      var i := pool.bitmap.Alloc(1);
      idx := i;
      addr := pool.addrStart + i * PSize(t);
      TakenPage(s, PoolView(t), i, addr);
    }

    /** pfree. The source checks the address against the pool, not the bitmap, so
        the caller must not pass a page beyond the last bit. */
    method Pfree(t: PoolType, addr: nat) returns (ok: bool)
      requires Shape() && PfreeAllowed(PoolView(t), addr)
      modifies PoolOf(t).bitmap.bytes
      ensures PfreeDid(old(PoolView(t)), PoolView(t), addr, ok)
    {
      var pool := PoolOf(t);
      if addr < pool.addrStart || addr >= pool.addrStart + pool.poolSize * PSize(t) {
        return false;
      }
      DivNat(addr - pool.addrStart, PSize(t));
      var bitIdx := (addr - pool.addrStart) / PSize(t);
      pool.bitmap.Set(bitIdx, false);
      return true;
    }

    /** The run theorems' world is this pager's physical pools. */
    ghost predicate Mirrors(w: World)
      reads four.bitmap.bytes, user.bitmap.bytes, core.bitmap.bytes
    {
      Of(w, Mem4K).pool == PoolView(Mem4K) && Of(w, User2M).pool == PoolView(User2M)
      && Of(w, Kernel2M).pool == PoolView(Kernel2M)
    }

    lemma EmptyWorld(p: Pools)
      requires Empty(four, p.start4k, p.pages4k, p.bytes4k) && Empty(user, p.startUser, p.pagesUser, p.bytesUser)
      requires Empty(core, p.startCore, p.pagesCore, p.bytesCore)
      ensures Mirrors(InitialWorld(p))
    {
      assert four.bitmap.Bits() == AllFree(8 * p.bytes4k) && user.bitmap.Bits() == AllFree(8 * p.bytesUser);
      assert core.bitmap.Bits() == AllFree(8 * p.bytesCore);
    }

    /** A call of palloc while its pool has a free page is a step of the run theorem. */
    method PallocIsTake(t: PoolType, ghost w: World) returns (addr: nat, ghost w': World)
      requires Shape() && Mirrors(w) && Good(w) && HasRun(PoolView(t).bits, 1)
      modifies PoolOf(t).bitmap.bytes
      ensures Mirrors(w') && Good(w') && 0 < Of(w, t).pool.size && Step(w, Take(t, addr), w') && !Held(w, t, addr)
    {
      hide Good, PallocDid, HasRun, BitsOf, SetRange, FreeRun, IsAllocIndex, Held;
      GoodPlaced(w);
      PoolSize(w, t);
      ghost var k;
      addr, k := Palloc(t);
      w' := WithPool(w, t, Record(PoolView(t), Of(w, t).held + {addr}));
      StepGood(w, Take(t, addr), w');
      TakenWasFree(w, Take(t, addr), w');
    }

    /** A call of pfree with an outstanding page is allowed, and is a step of the run theorem. */
    method PfreeIsGive(t: PoolType, addr: nat, ghost w: World) returns (ok: bool, ghost w': World)
      requires Shape() && Mirrors(w) && Good(w) && Held(w, t, addr)
      modifies PoolOf(t).bitmap.bytes
      ensures ok && Mirrors(w') && Good(w') && 0 < Of(w, t).pool.size && Step(w, Give(t, addr, ok), w')
    {
      hide Good, PfreeDid, PfreeAllowed, HasRun, BitsOf, SetRange;
      GoodPlaced(w);
      PoolSize(w, t);
      HeldAllowed(w, t, addr);
      ok := Pfree(t, addr);
      w' := WithPool(w, t, Record(PoolView(t), Of(w, t).held - {addr}));
      StepGood(w, Give(t, addr, ok), w');
      GivenIsCleared(w, Give(t, addr, ok), w');
    }

    /** valloc(KERNEL_2M, count): the first run of `cnt` virtual pages. */
    method Valloc(cnt: nat) returns (addr: nat, ghost idx: nat)
      requires Shape()
      modifies virt.bitmap.bytes
      ensures IsAllocIndex(old(virt.bitmap.Bits()), cnt, idx) && addr == VPage(geo, idx)
      ensures virt.bitmap.Bits() ==
              if cnt > 0 && HasRun(old(virt.bitmap.Bits()), cnt) then SetRange(old(virt.bitmap.Bits()), idx, cnt, true)
              else old(virt.bitmap.Bits())
    {
      var i := virt.bitmap.Alloc(cnt);
      idx := i;
      addr := virt.addrStart + i * PAGE_SIZE;
    }

    /** vfree(KERNEL_2M, addr, count). */
    method Vfree(addr: nat, cnt: nat)
      requires Shape() && geo.virtStart <= addr && PageIdx(geo, addr) + cnt < 0x1_0000_0000
      modifies virt.bitmap.bytes
      ensures virt.bitmap.Bits() ==
              if PageIdx(geo, addr) + cnt <= geo.pages
              then SetRange(old(virt.bitmap.Bits()), PageIdx(geo, addr), cnt, false)
              else old(virt.bitmap.Bits())
    {
      virt.bitmap.SetMany((addr - virt.addrStart) / PAGE_SIZE, cnt, false);
    }

    // ---- memory accesses through the MMU ----

    /** `*p` for an entry address p. */
    method Load(va: nat) returns (e: nat)
      requires Translate(mem, geo.root, va).Some? && va % 8 == 0
      ensures var pa := Translate(mem, geo.root, va).value;
              e == Word(mem, pa / 0x1000, pa % 0x1000 / 8)
    {
      var pa := Translate(mem, geo.root, va).value;
      e := Word(mem, pa / 0x1000, pa % 0x1000 / 8);
    }

    /** `*p = e` for an entry address p. */
    method Store(va: nat, e: nat)
      requires Translate(mem, geo.root, va).Some? && va % 8 == 0
      modifies this`mem
      ensures var pa := old(Translate(mem, geo.root, va).value);
              Stored(old(mem), mem, pa / 0x1000, pa % 0x1000 / 8, e)
    {
      var pa := Translate(mem, geo.root, va).value;
      mem := mem[(pa / 0x1000, pa % 0x1000 / 8) := e];
    }

    /** memset(va, 0, 4096) on the table frame f that va is mapped to, a word at a time. */
    method ZeroTable(va: nat, ghost f: nat)
      requires va % 8 == 0 && Window(mem, geo.root, va, f)
      modifies this`mem
      ensures Zeroed(old(mem), mem, f, 512)
    {
      ghost var was := mem;
      hide Translate, Access, Window, Zeroed, Stored;
      ZeroedNone(was, f);
      for i := 0 to 512
        invariant Zeroed(was, mem, f, i)
      {
        WindowEntry(was, mem, geo.root, va, f, i);
        FrameWord(f, i);
        ghost var before := mem;
        Store(EntryAt(va, i), 0);
        ZeroedNext(was, before, mem, f, i);
      }
    }

    // ---- page tables ----

    /** The first `if` of page_table_add: a missing PDPT is taken from the 4 KB
        pool, linked and cleared. */
    method LinkMissingPdpt(vaddr: nat)
      requires Shape() && GeoOk(geo) && TablesOk(geo, Snapshot()) && DataAddress(vaddr) && vaddr < WORD_LIMIT
      requires |Ones(Snapshot().four)| + MissingTables(mem, geo.root, vaddr) <= geo.frames
      modifies this`mem, this`role, four.bitmap.bytes
      ensures TablesOk(geo, Snapshot()) && Present(E4(mem, geo.root, I4(vaddr)))
      ensures |Ones(Snapshot().four)| + MissingTables(mem, geo.root, vaddr) <= geo.frames
      ensures old(Present(E4(mem, geo.root, I4(vaddr)))) ==> Snapshot() == old(Snapshot())
      ensures old(!Present(E4(mem, geo.root, I4(vaddr)))) ==>
                TookFrame(geo, old(Snapshot().four), Snapshot().four, E4(mem, geo.root, I4(vaddr)))
      ensures SameTranslation(geo.root, old(mem), mem) && WritesTables(old(Snapshot()), Snapshot())
    {
      ghost var s := Snapshot();
      hide Translate, Access, I4, I3, DataAddress, GetPml4e, GetPdpte, GeoOk, TablesOk, IsAllocIndex, HasRun,
           FreeRun, SetRange, Ones, MissingTables, RecursiveSlot, Window, And, TableEntry, Exists, Present, Zeroed,
           Stored, TookFrame, WritesTables;
      WritesNothing(s);
      TablesRoot(geo, s);
      Pml4eWalk(mem, geo.root, vaddr);
      var pml4e := GetPml4e(vaddr);
      var pdpte := GetPdpte(vaddr);
      var entry := Load(pml4e);
      ExistsIsPresent(entry);
      if !Exists(entry) {
        RoomForMissing(geo, s, vaddr);
        ghost var k;
        var addr;
        addr, k := Palloc(Mem4K);
        Store(pml4e, TableEntry(addr));
        ghost var linked := mem;
        LinkedPdptWindow(geo, s, mem, vaddr, k);
        ZeroTable(And(pdpte, 0xFFFF_FFFF_FFFF_F000), Frame(geo, k));
        role := role[Frame(geo, k) := Pdpt(Alias(I4(vaddr)))];
        LinkedPdptDone(geo, s, linked, Snapshot(), vaddr, k);
      }
    }

    /** The second `if` of page_table_add: a missing page directory is taken from
        the 4 KB pool, linked and cleared. */
    method LinkMissingPd(vaddr: nat)
      requires Shape() && GeoOk(geo) && TablesOk(geo, Snapshot()) && DataAddress(vaddr) && vaddr < WORD_LIMIT
      requires Present(E4(mem, geo.root, I4(vaddr)))
      requires |Ones(Snapshot().four)| + MissingTables(mem, geo.root, vaddr) <= geo.frames
      modifies this`mem, this`role, four.bitmap.bytes
      ensures TablesOk(geo, Snapshot())
      ensures Present(E4(mem, geo.root, I4(vaddr))) && Present(E3(mem, geo.root, I4(vaddr), I3(vaddr)))
      ensures old(Present(E3(mem, geo.root, I4(vaddr), I3(vaddr)))) ==> Snapshot() == old(Snapshot())
      ensures old(!Present(E3(mem, geo.root, I4(vaddr), I3(vaddr)))) ==>
                TookFrame(geo, old(Snapshot().four), Snapshot().four, E3(mem, geo.root, I4(vaddr), I3(vaddr)))
      ensures SameTranslation(geo.root, old(mem), mem) && WritesTables(old(Snapshot()), Snapshot())
      ensures InVirt(geo, vaddr) && old(Capacity(geo, Snapshot())) ==> Capacity(geo, Snapshot())
    {
      ghost var s := Snapshot();
      hide Translate, Access, I4, I3, DataAddress, GetPde, GetPdpte, GeoOk, TablesOk, IsAllocIndex, HasRun,
           FreeRun, SetRange, Ones, MissingTables, RecursiveSlot, Window, And, TableEntry, Exists, Present, Zeroed,
           Stored, TookFrame, WritesTables, Capacity, InVirt;
      WritesNothing(s);
      TablesRoot(geo, s);
      TablesPdpt(geo, s, vaddr);
      PdpteWalk(mem, geo.root, vaddr);
      var pdpte := GetPdpte(vaddr);
      var pde := GetPde(vaddr);
      var entry := Load(pdpte);
      ExistsIsPresent(entry);
      if !Exists(entry) {
        RoomForMissing(geo, s, vaddr);
        ghost var k;
        var addr;
        addr, k := Palloc(Mem4K);
        Store(pdpte, TableEntry(addr));
        ghost var linked := mem;
        LinkedPdWindow(geo, s, mem, vaddr, k);
        ZeroTable(And(pde, 0xFFFF_FFFF_FFFF_F000), Frame(geo, k));
        role := role[Frame(geo, k) := Pd(Alias(I4(vaddr)), I3(vaddr))];
        LinkedPdDone(geo, s, linked, Snapshot(), vaddr, k);
      }
    }

    /** page_table_add: the whole 2 MB page of vaddr is mapped to the page at paddr,
        and no other data address is translated differently. */
    method PageTableAdd(vaddr: nat, paddr: nat) returns (ok: bool)
      requires Shape() && GeoOk(geo) && TablesOk(geo, Snapshot()) && DataAddress(vaddr) && vaddr < WORD_LIMIT
      requires paddr % PAGE_SIZE == 0 && paddr < PHYS_LIMIT
      requires |Ones(Snapshot().four)| + MissingTables(mem, geo.root, vaddr) <= geo.frames
      modifies this`mem, this`role, four.bitmap.bytes
      ensures ok && TablesOk(geo, Snapshot()) && WritesTables(old(Snapshot()), Snapshot())
      ensures Maps(geo.root, old(mem), mem, vaddr, paddr)
      ensures E2(mem, geo.root, I4(vaddr), I3(vaddr), I2(vaddr)) == paddr + 0x87
      ensures InVirt(geo, vaddr) && old(Capacity(geo, Snapshot())) ==> Capacity(geo, Snapshot())
    {
      ghost var s0 := Snapshot();
      hide GeoOk, TablesOk, DataAddress, Ones, MissingTables, Present, Capacity, InVirt, Maps, SameTranslation,
           TookFrame, WritesTables;
      VirtSlotPresent(geo, Snapshot(), vaddr);
      LinkMissingPdpt(vaddr);
      ghost var s1 := Snapshot();
      LinkMissingPd(vaddr);
      ghost var s := Snapshot();
      WritesCompose(s0, s1, s);
      PageEntryValue(paddr);
      StoreEntry(vaddr, PageEntry(paddr));
      hide PageEntry, Base2M, LeafOk;
      StorePdeKeeps(geo, s, Snapshot(), vaddr, PageEntry(paddr));
      WritesCompose(s0, s, Snapshot());
      MapsAfterLinks(geo.root, s0.mem, s1.mem, s.mem, mem, vaddr, paddr);
      ok := true;
    }

    /** `*GET_PDE(vaddr) = e` on a path whose tables exist. */
    method StoreEntry(vaddr: nat, e: nat)
      requires Shape() && TablesOk(geo, Snapshot()) && DataAddress(vaddr) && vaddr < WORD_LIMIT
      requires Present(E4(mem, geo.root, I4(vaddr))) && Present(E3(mem, geo.root, I4(vaddr), I3(vaddr)))
      modifies this`mem
      ensures Stored(old(mem), mem, FrameOf(E3(old(mem), geo.root, I4(vaddr), I3(vaddr))), I2(vaddr), e)
    {
      hide TablesOk, DataAddress, Present, I4, I3, I2, GetPde, Translate, Access, RecursiveSlot;
      TablesRoot(geo, Snapshot());
      TablesPdpt(geo, Snapshot(), vaddr);
      PdeWalk(mem, geo.root, vaddr);
      Store(GetPde(vaddr), e);
    }

    /** page_table_remove: the page of vaddr is unmapped and nothing else changes. */
    method PageTableRemove(vaddr: nat) returns (ok: bool)
      requires Shape() && TablesOk(geo, Snapshot()) && DataAddress(vaddr) && vaddr < WORD_LIMIT
      requires Present(E4(mem, geo.root, I4(vaddr))) && Present(E3(mem, geo.root, I4(vaddr), I3(vaddr)))
      modifies this`mem
      ensures ok && TablesOk(geo, Snapshot()) && WritesTables(old(Snapshot()), Snapshot())
      ensures Unmaps(geo.root, old(mem), mem, vaddr)
      ensures var e := old(E2(mem, geo.root, I4(vaddr), I3(vaddr), I2(vaddr)));
              e < WORD_LIMIT ==> E2(mem, geo.root, I4(vaddr), I3(vaddr), I2(vaddr)) == e - e % 2
      ensures old(Capacity(geo, Snapshot())) ==> Capacity(geo, Snapshot())
    {
      ghost var s := Snapshot();
      hide TablesOk, DataAddress, Present, I4, I3, I2, GetPde, Translate, Access, RecursiveSlot, Capacity, Unmaps;
      TablesRoot(geo, s);
      TablesPdpt(geo, s, vaddr);
      PdeWalk(mem, geo.root, vaddr);
      var entry := Load(GetPde(vaddr));
      ClearedValue(entry);
      StoreEntry(vaddr, Cleared(entry));
      hide Cleared, Stored;
      StorePdeKeeps(geo, s, Snapshot(), vaddr, Cleared(entry));
      ok := true;
    }

    // ---- page_alloc and page_free ----

    /** page_alloc(KERNEL_2M, pgCnt), when the virtual pool has a run of that length.
        No other allocation in it can then run out. */
    method PageAlloc(pgCnt: nat) returns (vaddr: nat, ghost idx: nat)
      requires Valid() && 0 < pgCnt && HasRun(Snapshot().virt, pgCnt)
      modifies this`mem, this`role, this`phys
      modifies virt.bitmap.bytes, core.bitmap.bytes, four.bitmap.bytes
      ensures Valid() && vaddr == VPage(geo, idx)
      ensures Allocated(geo, old(Snapshot()), Snapshot(), idx, pgCnt)
    {
      ghost var s := Snapshot();
      hide Inv, HasRun, IsAllocIndex, Allocating, Allocated, SetRange, Translate, Access, GeoOk, KernelMapped;
      vaddr, idx := Valloc(pgCnt);
      AllocIndexIsRun(s.virt, pgCnt, idx);
      AllocStart(geo, s, Snapshot(), idx, pgCnt);
      VirtNonNull(geo, s, idx);
      assert vaddr != 0;  // the source's test `!vaddr` cannot see a failure
      var vaddrStart := vaddr;
      var t := 0;
      while t < pgCnt
        invariant t <= pgCnt && vaddrStart == vaddr + t * PAGE_SIZE
        invariant Allocating(geo, s, Snapshot(), idx, pgCnt, t)
      {
        AllocOnePage(s, vaddrStart, idx, pgCnt, t);
        vaddrStart := vaddrStart + PAGE_SIZE;
        t := t + 1;
      }
      AllocEnd(geo, s, Snapshot(), idx, pgCnt);
      AllocKeepsKernel(geo, s, Snapshot(), idx, pgCnt);
    }

    /** page_alloc(KERNEL_2M, 1) on a full pool: both tests for failure pass, and page 0,
        which is allocated, is mapped to core page 0. The invariant survives exactly if
        it was mapped there before. */
    method PageAllocWhenFull() returns (vaddr: nat)
      requires Valid() && 0 < geo.pages && !HasRun(Snapshot().virt, 1)
      modifies this`mem, this`role
      modifies virt.bitmap.bytes, core.bitmap.bytes, four.bitmap.bytes
      ensures vaddr == VPage(geo, 0) && IsMapped(geo, old(Snapshot()), vaddr)
      ensures Snapshot().virt == old(Snapshot().virt) && Snapshot().core == old(Snapshot().core)
      ensures Maps(geo.root, old(mem), mem, vaddr, PPage(geo, 0))
      ensures 0 in phys && (Valid() <==> phys[0] == 0)
      ensures forall i :: i in phys && phys[i] == 0 ==> Translate(mem, geo.root, VPage(geo, i)) == Some(PPage(geo, 0))
    {
      ghost var s := Snapshot();
      hide Inv, HasRun, Translate, Access, GeoOk, TablesOk, Capacity, Ones, DataAddress, Maps, InVirt, VPage, PPage,
           MissingTables, KernelMapped;
      FullPools(geo, s);
      FirstPageTables(geo, s);
      ghost var idx;
      vaddr, idx := Valloc(1);
      assert vaddr != 0;
      var paddr;
      paddr, idx := Palloc(Kernel2M);
      assert paddr != 0;
      TablesSame(geo, s, Snapshot());
      var ok := PageTableAdd(vaddr, paddr);
      FirstPageRemapped(geo, s, Snapshot());
      KernelSurvivesMaps(geo, s.mem, mem, 0, PPage(geo, 0));
    }

    /** The body of page_alloc's loop. */
    method AllocOnePage(ghost s: View, vaddr: nat, ghost idx: nat, ghost cnt: nat, ghost t: nat)
      requires Shape() && Allocating(geo, s, Snapshot(), idx, cnt, t) && t < cnt
      requires vaddr == VPage(geo, idx) + t * PAGE_SIZE
      modifies this`mem, this`role, this`phys, core.bitmap.bytes, four.bitmap.bytes
      ensures Allocating(geo, s, Snapshot(), idx, cnt, t + 1)
    {
      ghost var s1 := Snapshot();
      hide HasRun, FreeRun, IsAllocIndex, Allocating, SetRange, Ones, Maps, GeoOk, TablesOk, Capacity,
           DataAddress, InVirt, MissingTables, VPage, PPage;
      AllocRoom(geo, s, s1, idx, cnt, t);
      AllocatingTables(geo, s, s1, idx, cnt, t, vaddr);
      var paddr;
      ghost var j;
      paddr, j := Palloc(Kernel2M);
      CorePage(geo, s1, j);
      assert paddr != 0;
      TablesSame(geo, s1, Snapshot());
      var ok := PageTableAdd(vaddr, paddr);
      ghost var s2 := Snapshot();
      phys := phys[idx + t := j];
      TablesSame(geo, s2, Snapshot());
      AllocStep(geo, s, s1, Snapshot(), idx, cnt, t, j);
    }

    /** page_free(KERNEL_2M, vaddr, pgCnt) for allocated pages; vaddr may point
        anywhere into the first of them. */
    method PageFree(vaddr: nat, pgCnt: nat) returns (ok: bool)
      requires Valid() && InVirt(geo, vaddr) && 0 < pgCnt
      requires Range(PageIdx(geo, vaddr), pgCnt) <= Ones(Snapshot().virt)
      modifies this`mem, this`phys, virt.bitmap.bytes, core.bitmap.bytes
      ensures ok && Valid()
      ensures Freed(geo, old(Snapshot()), Snapshot(), PageIdx(geo, vaddr), pgCnt)
    {
      ghost var s := Snapshot();
      ghost var idx := PageIdx(geo, vaddr);
      hide Inv, Freeing, Freed, SetRange, Translate, Access, GeoOk, Ones, PageIdx, Range, InVirt, KernelMapped;
      PagesFit(geo, s, idx, pgCnt);
      Vfree(vaddr, pgCnt);
      FreeStart(geo, s, Snapshot(), idx, pgCnt);
      var v := vaddr;
      var t := 0;
      while t < pgCnt
        invariant t <= pgCnt && v == vaddr + t * PAGE_SIZE
        invariant Freeing(geo, s, Snapshot(), idx, pgCnt, t)
      {
        FreeOnePage(s, v, vaddr, idx, pgCnt, t);
        v := v + PAGE_SIZE;
        t := t + 1;
      }
      assert t == pgCnt;
      FreeEnd(geo, s, Snapshot(), idx, pgCnt);
      FreeKeepsKernel(geo, s, Snapshot(), idx, pgCnt);
      ok := true;
    }

    /** pfree of an address in core page j clears exactly bit j. */
    method FreeCorePage(paddr: nat, ghost j: nat, ghost off: nat)
      requires Shape() && GeoOk(geo) && j < geo.pages && off < PAGE_SIZE && paddr == PPage(geo, j) + off
      modifies core.bitmap.bytes
      ensures core.bitmap.Bits() == SetRange(old(core.bitmap.Bits()), j, 1, false)
    {
      CoreIndex(geo, j, off);
      hide GeoOk, SetRange, PPage;
      var freed := Pfree(Kernel2M, paddr);
    }

    /** The body of page_free's loop. */
    method FreeOnePage(ghost s: View, v: nat, ghost vaddr: nat, ghost idx: nat, ghost cnt: nat, ghost t: nat)
      requires Shape() && Freeing(geo, s, Snapshot(), idx, cnt, t) && t < cnt
      requires InVirt(geo, vaddr) && idx == PageIdx(geo, vaddr) && v == vaddr + t * PAGE_SIZE
      modifies this`mem, this`phys, core.bitmap.bytes
      ensures Freeing(geo, s, Snapshot(), idx, cnt, t + 1)
    {
      ghost var s1 := Snapshot();
      hide Freeing, SetRange, Ones, Unmaps, GeoOk, TablesOk, Capacity, DataAddress, InVirt, Translate, Access,
           Translated, Present, I4, I3, I2, V2P, VPage, PPage, GetPde, PageIdx, RecursiveSlot;
      FreeingPage(geo, s, s1, vaddr, v, idx, cnt, t);
      ghost var j := s1.phys[idx + t];
      MappedEntry(geo, s1, v, idx + t, j);
      TablesRoot(geo, s1);
      TablesPdpt(geo, s1, v);
      PdeWalk(mem, geo.root, v);
      var entry := Load(GetPde(v));
      var paddr := V2P(entry, v);
      FreeCorePage(paddr, j, v % PAGE_SIZE);
      TablesSame(geo, s1, Snapshot());
      var ok := PageTableRemove(v);
      ghost var s2 := Snapshot();
      phys := phys - {idx + t};
      TablesSame(geo, s2, Snapshot());
      UnmapsSame(geo.root, s1.mem, mem, v, VPage(geo, idx + t));
      FreeStep(geo, s, s1, Snapshot(), idx, cnt, t);
    }
  }

  // ---- facts the two loops use ----

  /** The first page of the virtual pool and of the core pool, and the tables of the former. */
  lemma FirstPageTables(g: Geo, s: View)
    requires Inv(g, s) && 0 < g.pages
    ensures GeoOk(g) && TablesOk(g, s) && Capacity(g, s)
    ensures VPage(g, 0) == g.virtStart && PPage(g, 0) == g.coreStart
    ensures 0 < g.virtStart && 0 < g.coreStart < PHYS_LIMIT && g.coreStart % PAGE_SIZE == 0
    ensures InVirt(g, g.virtStart) && DataAddress(g.virtStart) && g.virtStart < WORD_LIMIT
    ensures |Ones(s.four)| + MissingTables(s.mem, g.root, g.virtStart) <= g.frames
  {
    VPageAddress(g, 0);
    PPageAddress(g, 0);
    hide TablesOk, Capacity, Mapping, Ones;
    VirtIsData(g, VPage(g, 0));
    TableRoom(g, s, VPage(g, 0));
  }

  lemma TakenPage(s: PoolState, s': PoolState, k: nat, addr: nat)
    requires IsAllocIndex(s.bits, 1, k) && addr == PageAddr(s, k)
    requires s' == if HasRun(s.bits, 1) then s.(bits := SetRange(s.bits, k, 1, true)) else s
    ensures PallocDid(s, s', addr)
  {
    hide FirstRun, HasRun, SetRange;
  }

  lemma AllocIndexIsRun(bits: seq<bool>, cnt: nat, idx: nat)
    requires IsAllocIndex(bits, cnt, idx) && 0 < cnt && HasRun(bits, cnt)
    ensures FirstRun(bits, idx, cnt)
  {}

  lemma AllocKeepsKernel(g: Geo, s: View, s': View, idx: nat, cnt: nat)
    requires Inv(g, s) && Allocated(g, s, s', idx, cnt) && KernelMapped(g, s.mem)
    ensures KernelMapped(g, s'.mem)
  {
    hide TablesOk, Capacity, GeoOk, KernelMapped, OthersSame, SetRange;
    KernelStaysMapped(g, s.mem, s'.mem, idx, cnt);
  }

  lemma FreeKeepsKernel(g: Geo, s: View, s': View, idx: nat, cnt: nat)
    requires Inv(g, s) && Freed(g, s, s', idx, cnt) && KernelMapped(g, s.mem)
    ensures KernelMapped(g, s'.mem)
  {
    hide TablesOk, Capacity, GeoOk, KernelMapped, OthersSame, AllUnmapped, SetRange;
    KernelStaysMapped(g, s.mem, s'.mem, idx, cnt);
  }

  lemma VirtNonNull(g: Geo, s: View, idx: nat)
    requires Inv(g, s)
    ensures VPage(g, idx) > 0
  {}

  lemma AllocatingTables(g: Geo, s: View, s1: View, idx: nat, cnt: nat, t: nat, v: nat)
    requires Allocating(g, s, s1, idx, cnt, t) && t < cnt && v == VPage(g, idx) + t * PAGE_SIZE
    requires idx + t < g.pages
    ensures v == VPage(g, idx + t) && InVirt(g, v) && DataAddress(v) && v < WORD_LIMIT
    ensures GeoOk(g) && TablesOk(g, s1) && Capacity(g, s1)
    ensures |Ones(s1.four)| + MissingTables(s1.mem, g.root, v) <= g.frames
  {
    VPageAddress(g, idx + t);
    hide TablesOk, Capacity, Mapping, GeoOk, FirstRun, PhysGrown, OthersSame, Ones;
    VirtIsData(g, v);
    TableRoom(g, s1, v);
  }

  /** The page tables do not depend on the core pool's bitmap. */
  lemma TablesSame(g: Geo, s: View, s': View)
    requires TablesOk(g, s) && Capacity(g, s) && s'.mem == s.mem && s'.role == s.role && s'.four == s.four
    ensures TablesOk(g, s') && Capacity(g, s')
  {
    hide WellFormed;
  }

  lemma CorePage(g: Geo, s: View, j: nat)
    requires GeoOk(g) && FreeRun(s.core, j, 1) && |s.core| == g.pages
    ensures g.coreStart + j * PAGE_SIZE == PPage(g, j) && 0 < PPage(g, j) < PHYS_LIMIT
    ensures PPage(g, j) % PAGE_SIZE == 0
  {
    PPageAddress(g, j);
  }

  lemma PagesFit(g: Geo, s: View, idx: nat, cnt: nat)
    requires Inv(g, s) && Range(idx, cnt) <= Ones(s.virt) && 0 < cnt
    ensures idx + cnt <= g.pages
  {
    assert idx + cnt - 1 in Range(idx, cnt);
  }

  lemma FreeingPage(g: Geo, s: View, s1: View, vaddr: nat, v: nat, idx: nat, cnt: nat, t: nat)
    requires Freeing(g, s, s1, idx, cnt, t) && t < cnt
    requires InVirt(g, vaddr) && idx == PageIdx(g, vaddr) && v == vaddr + t * PAGE_SIZE
    ensures GeoOk(g) && TablesOk(g, s1) && Capacity(g, s1)
    ensures DataAddress(v) && v < WORD_LIMIT && SamePage(v, VPage(g, idx + t))
    ensures idx + t in s1.phys && s1.phys[idx + t] < |s1.core| && |s1.core| == g.pages
    ensures InVirt(g, v) && PageIdx(g, v) == idx + t && Translated(g, s1.mem, s1.phys)
  {
    hide Freeing, TablesOk, Capacity, GeoOk, InVirt, PageIdx, DataAddress, SamePage, Translated, VPage;
    FreeingIndex(g, s, s1, idx, cnt, t);
    FreeingPlace(g, vaddr, t);
  }

  lemma MappedEntry(g: Geo, s: View, v: nat, i: nat, j: nat)
    requires TablesOk(g, s) && DataAddress(v) && Translated(g, s.mem, s.phys) && InVirt(g, v)
    requires i == PageIdx(g, v) && i in s.phys && s.phys[i] == j
    ensures Present(E4(s.mem, g.root, I4(v))) && Present(E3(s.mem, g.root, I4(v), I3(v)))
    ensures V2P(E2(s.mem, g.root, I4(v), I3(v), I2(v)), v) == PPage(g, j) + v % PAGE_SIZE
  {
    TranslatedAt(g, s.mem, s.phys, v);
    hide TablesOk, InVirt, PageIdx, DataAddress, Translate, Access, I4, I3, I2, Present, V2P, Translated, PPage,
         E2, E3, E4;
    LoadedPage(g, s, v, PPage(g, j) + v % PAGE_SIZE);
  }

  lemma FreeingPlace(g: Geo, vaddr: nat, t: nat)
    requires GeoOk(g) && InVirt(g, vaddr) && PageIdx(g, vaddr) + t < g.pages
    ensures var v := vaddr + t * PAGE_SIZE;
            InVirt(g, v) && PageIdx(g, v) == PageIdx(g, vaddr) + t && DataAddress(v) && v < WORD_LIMIT
            && SamePage(v, VPage(g, PageIdx(g, vaddr) + t))
  {
    hide DataAddress, SamePage, I4, I3, I2, VPage;
    var v, i := vaddr + t * PAGE_SIZE, PageIdx(g, vaddr) + t;
    NextPage(g, vaddr, t);
    hide InVirt, PageIdx, GeoOk;
    VirtIsData(g, v);
    VPageAddress(g, i);
    VirtSamePage(g, v, VPage(g, i));
  }

  lemma TranslatedAt(g: Geo, m: Frames, phys: map<nat, nat>, v: nat)
    requires Translated(g, m, phys) && InVirt(g, v) && PageIdx(g, v) in phys
    ensures Translate(m, g.root, v) == Some(PPage(g, phys[PageIdx(g, v)]) + v % PAGE_SIZE)
  {}

  lemma FreeingIndex(g: Geo, s: View, s1: View, idx: nat, cnt: nat, t: nat)
    requires Freeing(g, s, s1, idx, cnt, t) && t < cnt
    ensures GeoOk(g) && TablesOk(g, s1) && Capacity(g, s1) && Translated(g, s1.mem, s1.phys)
    ensures idx + t in s1.phys && s1.phys[idx + t] < |s1.core| && |s1.core| == g.pages && idx + t < g.pages
  {
    hide TablesOk, Capacity, GeoOk, OthersSame, AllUnmapped, Injective, Translated, SetRange;
    assert idx + t in Range(idx, cnt) && idx + t !in Range(idx, t);
    assert idx + t in Ones(s.virt);
    assert s1.phys[idx + t] in s1.phys.Values;
  }

  lemma NextPage(g: Geo, vaddr: nat, t: nat)
    requires GeoOk(g) && InVirt(g, vaddr) && PageIdx(g, vaddr) + t < g.pages
    ensures var v := vaddr + t * PAGE_SIZE;
            InVirt(g, v) && PageIdx(g, v) == PageIdx(g, vaddr) + t
  {
    var v := vaddr + t * PAGE_SIZE;
    ModOfSum(vaddr - g.virtStart, t, PAGE_SIZE);
    var q := (v - g.virtStart) / PAGE_SIZE;
    MulMono(q + 1, g.pages, PAGE_SIZE);
  }

  lemma CoreIndex(g: Geo, j: nat, off: nat)
    requires GeoOk(g) && j < g.pages && off < PAGE_SIZE
    ensures var p := PPage(g, j) + off;
            g.coreStart <= p < g.coreStart + g.pages * PAGE_SIZE && (p - g.coreStart) / PAGE_SIZE == j
  {
    DivUnique(PPage(g, j) + off - g.coreStart, PAGE_SIZE, j, off);
    MulMono(j + 1, g.pages, PAGE_SIZE);
  }

  lemma UnmapsSame(root: nat, m: Frames, m': Frames, v: nat, u: nat)
    requires Unmaps(root, m, m', v) && SamePage(v, u)
    ensures Unmaps(root, m, m', u)
  {
    hide Translate, Access, DataAddress, I4, I3, I2;
  }

  lemma MapsAfterLinks(root: nat, m0: Frames, m1: Frames, m2: Frames, m3: Frames, v: nat, p: nat)
    requires SameTranslation(root, m0, m1) && SameTranslation(root, m1, m2) && Maps(root, m2, m3, v, p)
    ensures Maps(root, m0, m3, v, p)
  {
    hide Translate, Access, DataAddress, SamePage;
  }

  /** Slot 256 has its PDPT from boot on. */
  lemma VirtSlotPresent(g: Geo, s: View, v: nat)
    requires GeoOk(g) && TablesOk(g, s)
    ensures InVirt(g, v) ==> I4(v) == 256 && Present(E4(s.mem, g.root, I4(v)))
  {
    if InVirt(g, v) {
      VirtIsData(g, v);
    }
    hide I4, DataAddress, InVirt;
  }

  lemma TablesPdpt(g: Geo, s: View, v: nat)
    requires TablesOk(g, s) && DataAddress(v) && Present(E4(s.mem, g.root, I4(v)))
    ensures HasPdpt(s.mem, g.root, I4(v))
    ensures Present(E3(s.mem, g.root, I4(v), I3(v))) ==> HasPd(s.mem, g.root, I4(v), I3(v))
  {
    hide I4, I3, Canonical, Present;
    Path(s.mem, g.root, s.role, I4(v), I3(v));
  }

  lemma TablesRoot(g: Geo, s: View)
    requires TablesOk(g, s)
    ensures RecursiveSlot(s.mem, g.root)
  {}

  // ---- the entry addresses as loads and stores see them ----

  lemma EntryAligned(i4: nat, i3: nat, i2: nat)
    ensures Pml4eAddr(i4) % 8 == 0 && PdpteAddr(i4, i3) % 8 == 0 && PdeAddr(i4, i3, i2) % 8 == 0
  {}

  lemma PdpteStep(i4: nat, i: nat)
    ensures EntryAt(PdpteAddr(i4, 0), i) == PdpteAddr(i4, i)
  {}

  lemma PdeStep(i4: nat, i3: nat, i: nat)
    ensures EntryAt(PdeAddr(i4, i3, 0), i) == PdeAddr(i4, i3, i)
  {}

  lemma PdpteTableStart(v: nat)
    requires v < WORD_LIMIT
    ensures And(GetPdpte(v), 0xFFFF_FFFF_FFFF_F000) == PdpteAddr(I4(v), 0)
  {
    hide And, GetPdpte, I4, I3;
    MacroAddresses(v);
    PdpteIndices(I4(v), I3(v));
    TableStart(GetPdpte(v));
  }

  lemma PdeTableStart(v: nat)
    requires v < WORD_LIMIT
    ensures And(GetPde(v), 0xFFFF_FFFF_FFFF_F000) == PdeAddr(I4(v), I3(v), 0)
  {
    hide And, GetPde, I4, I3, I2;
    MacroAddresses(v);
    PdeIndices(I4(v), I3(v), I2(v));
    TableStart(GetPde(v));
  }

  lemma Pml4eWalk(m: Frames, root: nat, v: nat)
    requires v < WORD_LIMIT && RecursiveSlot(m, root)
    ensures GetPml4e(v) % 8 == 0 && Translate(m, root, GetPml4e(v)).Some?
    ensures var pa := Translate(m, root, GetPml4e(v)).value;
            pa / 0x1000 == root && pa % 0x1000 / 8 == I4(v)
  {
    hide Translate, Access, RecursiveSlot, HasPdpt, HasPd, GetPml4e, I4, Pml4eAddr;
    RecursiveWalk(m, root, v);
    MacroAddresses(v);
    EntryAligned(I4(v), 0, 0);
    FrameWord(root, I4(v));
  }

  lemma PdpteWalk(m: Frames, root: nat, v: nat)
    requires v < WORD_LIMIT && RecursiveSlot(m, root) && HasPdpt(m, root, I4(v))
    ensures GetPdpte(v) % 8 == 0 && Translate(m, root, GetPdpte(v)).Some?
    ensures var pa := Translate(m, root, GetPdpte(v)).value;
            pa / 0x1000 == FrameOf(E4(m, root, I4(v))) && pa % 0x1000 / 8 == I3(v)
  {
    hide Translate, Access, RecursiveSlot, HasPdpt, HasPd, GetPdpte, I4, I3, FrameOf, PdpteAddr;
    RecursiveWalk(m, root, v);
    MacroAddresses(v);
    EntryAligned(I4(v), I3(v), 0);
    FrameWord(FrameOf(E4(m, root, I4(v))), I3(v));
  }

  lemma PdeWalk(m: Frames, root: nat, v: nat)
    requires v < WORD_LIMIT && RecursiveSlot(m, root) && HasPd(m, root, I4(v), I3(v))
    ensures GetPde(v) % 8 == 0 && Translate(m, root, GetPde(v)).Some?
    ensures var pa := Translate(m, root, GetPde(v)).value;
            pa / 0x1000 == FrameOf(E3(m, root, I4(v), I3(v))) && pa % 0x1000 / 8 == I2(v)
  {
    hide Translate, Access, RecursiveSlot, HasPdpt, HasPd, GetPde, I4, I3, I2, FrameOf, PdeAddr;
    RecursiveWalk(m, root, v);
    MacroAddresses(v);
    EntryAligned(I4(v), I3(v), I2(v));
    FrameWord(FrameOf(E3(m, root, I4(v), I3(v))), I2(v));
  }

  lemma PdptWindow(m: Frames, root: nat, v: nat, f: nat)
    requires v < WORD_LIMIT && RecursiveSlot(m, root) && HasPdpt(m, root, I4(v))
    requires f == FrameOf(E4(m, root, I4(v))) && f != root
    ensures And(GetPdpte(v), 0xFFFF_FFFF_FFFF_F000) % 8 == 0
    ensures Window(m, root, And(GetPdpte(v), 0xFFFF_FFFF_FFFF_F000), f)
  {
    hide Or, And, GetPdpte, I4, I3, Translate, Access, Present, PageSizeBit, FrameOf, PdpteAddr, Canonical, I2, I1;
    PdpteTableStart(v);
    EntryAligned(I4(v), 0, 0);
    forall m': Frames, i: nat | AgreeOutside(m, m', f) && i < 512
      ensures Translate(m', root, EntryAt(PdpteAddr(I4(v), 0), i)) == Some(f * 0x1000 + i * 8)
    {
      PdpteStep(I4(v), i);
      WalkPdpte(m', root, I4(v), i);
    }
  }

  lemma PdWindow(m: Frames, root: nat, v: nat, f: nat)
    requires v < WORD_LIMIT && RecursiveSlot(m, root) && HasPd(m, root, I4(v), I3(v))
    requires f == FrameOf(E3(m, root, I4(v), I3(v))) && f != root && f != FrameOf(E4(m, root, I4(v)))
    ensures And(GetPde(v), 0xFFFF_FFFF_FFFF_F000) % 8 == 0
    ensures Window(m, root, And(GetPde(v), 0xFFFF_FFFF_FFFF_F000), f)
  {
    hide Or, And, GetPde, I4, I3, I2, Translate, Access, Present, PageSizeBit, FrameOf, PdeAddr, Canonical, I1;
    PdeTableStart(v);
    EntryAligned(I4(v), I3(v), 0);
    forall m': Frames, i: nat | AgreeOutside(m, m', f) && i < 512
      ensures Translate(m', root, EntryAt(PdeAddr(I4(v), I3(v), 0), i)) == Some(f * 0x1000 + i * 8)
    {
      PdeStep(I4(v), I3(v), i);
      WalkPde(m', root, I4(v), I3(v), i);
    }
  }

  // ---- linking a new table ----

  lemma RoomForMissing(g: Geo, s: View, v: nat)
    requires |s.four| == g.frames && |Ones(s.four)| + MissingTables(s.mem, g.root, v) <= g.frames
    ensures !Present(E4(s.mem, g.root, I4(v))) ==> MissingTables(s.mem, g.root, v) == 2 && HasRun(s.four, 1)
    ensures Present(E4(s.mem, g.root, I4(v))) && !Present(E3(s.mem, g.root, I4(v), I3(v))) ==>
              MissingTables(s.mem, g.root, v) == 1 && HasRun(s.four, 1)
  {
    OnesBound(s.four);
  }

  /** After `*pml4e = addr | ...`, the page of `pdpte` is the new frame. */
  lemma LinkedPdptWindow(g: Geo, s: View, mem: Frames, v: nat, k: nat)
    requires GeoOk(g) && TablesOk(g, s) && DataAddress(v) && v < WORD_LIMIT && FreeRun(s.four, k, 1)
    requires Stored(s.mem, mem, g.root, I4(v), TableEntry(g.fourStart + k * PAGE_SIZE_4K))
    ensures And(GetPdpte(v), 0xFFFF_FFFF_FFFF_F000) % 8 == 0
    ensures Window(mem, g.root, And(GetPdpte(v), 0xFFFF_FFFF_FFFF_F000), Frame(g, k))
  {
    FrameAddress(g, k);
    TableEntryValue(g.fourStart + k * PAGE_SIZE_4K);
    FreeFrameIsNoTable(g, s, k);
    assert RecursiveSlot(s.mem, g.root) && g.root in s.role;
    hide GeoOk, TablesOk, TableEntry, Present, PageSizeBit, FrameOf, And, Translate, Access, I3, Frame, GetPdpte,
         Canonical;
    hide FreeRun, Window;
    PdptWindow(mem, g.root, v, Frame(g, k));
  }

  lemma LinkedPdptDone(g: Geo, s: View, mem: Frames, s': View, v: nat, k: nat)
    requires GeoOk(g) && TablesOk(g, s) && DataAddress(v) && FreeRun(s.four, k, 1)
    requires !Present(E4(s.mem, g.root, I4(v)))
    requires Stored(s.mem, mem, g.root, I4(v), TableEntry(g.fourStart + k * PAGE_SIZE_4K))
    requires Zeroed(mem, s'.mem, Frame(g, k), 512)
    requires s'.four == SetRange(s.four, k, 1, true)
    requires s'.role == s.role[Frame(g, k) := Pdpt(Alias(I4(v)))]
    ensures TablesOk(g, s') && Present(E4(s'.mem, g.root, I4(v)))
    ensures MissingTables(s'.mem, g.root, v) == 1 && |Ones(s'.four)| == |Ones(s.four)| + 1
    ensures SameTranslation(g.root, s.mem, s'.mem) && WritesTables(s, s')
    ensures FirstRun(s.four, k, 1) ==> TookFrame(g, s.four, s'.four, E4(s'.mem, g.root, I4(v)))
  {
    FrameAddress(g, k);
    TableEntryValue(g.fourStart + k * PAGE_SIZE_4K);
    FreeFrameIsNoTable(g, s, k);
    SetRangeOnes(s.four, k, 1);
    assert g.root in s.role && !Present(0);
    hide GeoOk, TablesOk, TableEntry, Present, PageSizeBit, FrameOf, Translate, Access, I3, Frame, Canonical, FreeRun;
    hide SetRange, Ones;
    LinkPdptKeeps(g, s, s', I4(v), TableEntry(g.fourStart + k * PAGE_SIZE_4K), k);
  }

  lemma LinkedPdWindow(g: Geo, s: View, mem: Frames, v: nat, k: nat)
    requires GeoOk(g) && TablesOk(g, s) && DataAddress(v) && v < WORD_LIMIT && FreeRun(s.four, k, 1)
    requires Present(E4(s.mem, g.root, I4(v)))
    requires Stored(s.mem, mem, FrameOf(E4(s.mem, g.root, I4(v))), I3(v), TableEntry(g.fourStart + k * PAGE_SIZE_4K))
    ensures And(GetPde(v), 0xFFFF_FFFF_FFFF_F000) % 8 == 0
    ensures Window(mem, g.root, And(GetPde(v), 0xFFFF_FFFF_FFFF_F000), Frame(g, k))
  {
    FrameAddress(g, k);
    TableEntryValue(g.fourStart + k * PAGE_SIZE_4K);
    FreeFrameIsNoTable(g, s, k);
    hide I4, I3, Present, PageSizeBit, FrameOf, Canonical;
    Path(s.mem, g.root, s.role, I4(v), I3(v));
    assert RecursiveSlot(s.mem, g.root) && g.root in s.role;
    hide GeoOk, TablesOk, TableEntry, And, Translate, Access, Frame, GetPde, FreeRun, Window, FrameOk, I2;
    PdWindow(mem, g.root, v, Frame(g, k));
  }

  lemma LinkedPdDone(g: Geo, s: View, mem: Frames, s': View, v: nat, k: nat)
    requires GeoOk(g) && TablesOk(g, s) && DataAddress(v) && FreeRun(s.four, k, 1)
    requires Present(E4(s.mem, g.root, I4(v))) && !Present(E3(s.mem, g.root, I4(v), I3(v)))
    requires Stored(s.mem, mem, FrameOf(E4(s.mem, g.root, I4(v))), I3(v), TableEntry(g.fourStart + k * PAGE_SIZE_4K))
    requires Zeroed(mem, s'.mem, Frame(g, k), 512)
    requires s'.four == SetRange(s.four, k, 1, true)
    requires s'.role == s.role[Frame(g, k) := Pd(Alias(I4(v)), I3(v))]
    ensures TablesOk(g, s')
    ensures Present(E4(s'.mem, g.root, I4(v))) && Present(E3(s'.mem, g.root, I4(v), I3(v)))
    ensures SameTranslation(g.root, s.mem, s'.mem) && WritesTables(s, s')
    ensures FirstRun(s.four, k, 1) ==> TookFrame(g, s.four, s'.four, E3(s'.mem, g.root, I4(v), I3(v)))
    ensures InVirt(g, v) && Capacity(g, s) ==> Capacity(g, s')
  {
    var e := TableEntry(g.fourStart + k * PAGE_SIZE_4K);
    FrameAddress(g, k);
    TableEntryValue(g.fourStart + k * PAGE_SIZE_4K);
    FreeFrameIsNoTable(g, s, k);
    VirtSlotPresent(g, s, v);
    hide I4, I3, Present, PageSizeBit, FrameOf, Canonical;
    Path(s.mem, g.root, s.role, I4(v), I3(v));
    hide GeoOk, TablesOk, TableEntry, Translate, Access, Frame, FreeRun, SetRange, Ones, FrameOk, Capacity, InVirt;
    LinkPdKeeps(g, s, s', I4(v), I3(v), e, k);
    if InVirt(g, v) && Capacity(g, s) {
      LinkPdCapacity(g, s, s', v, e, k);
    }
  }

  function EntryAt(va: nat, i: nat): nat {
    va + i * 8
  }

  /** `m'` is `m` with the first n entries of frame f cleared. */
  ghost predicate Zeroed(m: Frames, m': Frames, f: nat, n: nat) {
    forall g: nat, j: nat :: Word(m', g, j) == if g == f && j < n then 0 else Word(m, g, j)
  }

  lemma ZeroedNone(m: Frames, f: nat)
    ensures Zeroed(m, m, f, 0)
  {}

  lemma ZeroedNext(m: Frames, m1: Frames, m2: Frames, f: nat, n: nat)
    requires Zeroed(m, m1, f, n) && Stored(m1, m2, f, n, 0)
    ensures Zeroed(m, m2, f, n + 1)
  {}

  lemma FrameWord(f: nat, i: nat)
    requires i < 512
    ensures var pa := f * 0x1000 + i * 8;
            pa / 0x1000 == f && pa % 0x1000 / 8 == i
  {
    DivUnique(f * 0x1000 + i * 8, 0x1000, f, i * 8);
  }

  ghost predicate AgreeOutside(m: Frames, m': Frames, f: nat) {
    forall g: nat, j: nat :: g != f ==> Word(m', g, j) == Word(m, g, j)
  }

  /** The 4 KB at `va` are frame f, whatever that frame holds. */
  ghost predicate Window(m: Frames, root: nat, va: nat, f: nat) {
    forall m': Frames, i: nat :: AgreeOutside(m, m', f) && i < 512 ==>
      Translate(m', root, EntryAt(va, i)) == Some(f * 0x1000 + i * 8)
  }

  lemma WindowEntry(m: Frames, m': Frames, root: nat, va: nat, f: nat, i: nat)
    requires Window(m, root, va, f) && Zeroed(m, m', f, i) && i < 512
    ensures Translate(m', root, EntryAt(va, i)) == Some(f * 0x1000 + i * 8)
  {
    assert AgreeOutside(m, m', f);
  }
}
