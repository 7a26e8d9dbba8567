/** The state in which the loader hands over to init_memory. */
module Boot {
  import opened Words
  import opened Layout
  import opened Bitmaps
  import opened PageTables
  import opened TableEdits
  import opened PagerModel

  /** PAGE_BASE / 4096 (boot/loader.asm:9). */
  const BOOT_PML4: nat := 0x90

  /** The entries written at boot/loader.asm:190-216; the rest of the five tables is zero. */
  function BootEntry(f: nat, i: nat): nat {
    if f == 0x90 && (i == 0 || i == 256) then 0x91007
    else if f == 0x90 && i == 510 then 0x93007
    else if f == 0x90 && i == 511 then 0x90007
    else if f == 0x91 && i == 0 then 0x92007
    else if f == 0x92 && i < 5 then i * 0x20_0000 + 0x83
    else if f == 0x93 && i == 0 then 0x94007
    else if f == 0x94 && i < 3 then 0xE000_0083 + i * 0x20_0000
    else if f == 0x94 && i == 8 then 0xFEC0_0083
    else 0
  }

  /** The five boot tables are set up; all other memory is arbitrary. */
  ghost predicate BootTables(m: Frames) {
    forall f: nat, i: nat :: 0x90 <= f <= 0x94 && i < 512 ==> Word(m, f, i) == BootEntry(f, i)
  }

  const BOOT_ROLES: Roles :=
    map[0x90 := Pml4, 0x91 := Pdpt(0), 0x92 := Pd(0, 0), 0x93 := Pdpt(510), 0x94 := Pd(510, 0)]

  lemma BootRoot(m: Frames)
    requires BootTables(m)
    ensures RootOk(m, BOOT_PML4, BOOT_ROLES)
  {
    assert Word(m, 0x90, 0) == Word(m, 0x90, 256) == 0x91007 && Word(m, 0x90, 511) == 0x90007;
    forall i: nat | i < 511 && Present(Word(m, 0x90, i)) ensures Points(m, 0x90, i, BOOT_ROLES, Pdpt(Alias(i))) {
      assert Word(m, 0x90, i) == BootEntry(0x90, i);
    }
  }

  /** A boot entry of a page directory: a 2 MB page, or not present. */
  lemma BootPde(f: nat, i: nat)
    requires f == 0x92 || f == 0x94
    ensures Present(BootEntry(f, i)) ==> LeafOk(BootEntry(f, i))
  {
    if f == 0x92 && i < 5 {
      PageEntryBits(i);
    } else if f == 0x94 && i < 3 {
      PageEntryBits(0x700 + i);
    }
  }

  lemma PageEntryBits(q: nat)
    ensures PageSizeBit(q * 0x20_0000 + 0x83)
  {
    assert (q * 0x20_0000 + 0x83) / 0x80 == q * 0x4000 + 1 by {
      DivUnique(q * 0x20_0000 + 0x83, 0x80, q * 0x4000 + 1, 3);
    }
    DivUnique(q * 0x4000 + 1, 2, q * 0x2000, 1);
  }

  lemma BootFrames(m: Frames, f: nat)
    requires BootTables(m) && f in BOOT_ROLES
    ensures FrameOk(m, f, BOOT_ROLES)
  {
    if f == 0x92 || f == 0x94 {
      forall k: nat | k < 512 && Present(Word(m, f, k)) ensures LeafOk(Word(m, f, k)) {
        BootPde(f, k);
      }
    } else if f != 0x90 {
      var s := BOOT_ROLES[f].slot;
      forall j: nat | j < 512 && Present(Word(m, f, j)) ensures Points(m, f, j, BOOT_ROLES, Pd(s, j)) {
        assert Word(m, f, j) == BootEntry(f, j);
      }
    }
  }

  /** The boot tables satisfy the page-table invariant. */
  lemma BootWellFormed(m: Frames)
    requires BootTables(m)
    ensures WellFormed(m, BOOT_PML4, BOOT_ROLES)
  {
    BootRoot(m);
    forall f | f in BOOT_ROLES ensures FrameOk(m, f, BOOT_ROLES) {
      BootFrames(m, f);
    }
  }

  /** The geometry that init_memory fixes. */
  function BootGeo(physSize: nat, kernelEnd: nat): Geo {
    var p := InitMemory(physSize, kernelEnd);
    Geo(BOOT_PML4, p.startUser, p.startCore, p.start4k, p.startVirt, 8 * p.bytesCore, 8 * p.bytes4k)
  }

  lemma BootGeoOk(physSize: nat, kernelEnd: nat)
    requires Bootable(physSize, kernelEnd)
    ensures GeoOk(BootGeo(physSize, kernelEnd))
    ensures 0x20_0000 <= BootGeo(physSize, kernelEnd).userStart <= 0xA0_0000
    ensures BootGeo(physSize, kernelEnd).virtStart == KERNEL_BASE + BootGeo(physSize, kernelEnd).userStart
  {
    hide InitMemory, RoomAboveKernel, AlignUp;
    FourKBounds(physSize, kernelEnd);
    PoolSizes(physSize, kernelEnd);
    BootSizes(physSize, kernelEnd);
    EnoughForPageTables(physSize, kernelEnd);
    StartUserBounds(physSize, kernelEnd);
    var p := InitMemory(physSize, kernelEnd);
    GeoArithmetic(p.startUser, p.startCore, p.start4k, p.totalPages, p.pagesUser, p.pagesCore, p.bytesCore);
  }

  lemma FourKBounds(physSize: nat, kernelEnd: nat)
    requires Bootable(physSize, kernelEnd)
    ensures var p := InitMemory(physSize, kernelEnd);
            p.start4k % PAGE_SIZE_4K == 0 && p.start4k + 8 * p.bytes4k * PAGE_SIZE_4K <= PHYS_LIMIT
            && p.startUser + p.pagesUser * PAGE_SIZE == p.startCore && p.startCore % PAGE_SIZE == 0
            && p.startCore + p.pagesCore * PAGE_SIZE == p.start4k
  {
    hide InitMemory, AlignUp;
    PoolsPartitionMemory(physSize, kernelEnd);
    hide RoomAboveKernel;
    var p := InitMemory(physSize, kernelEnd);
    DivUnique(p.start4k, 0x1000, p.start4k / 0x20_0000 * 512, 0);
  }

  lemma StartUserBounds(physSize: nat, kernelEnd: nat)
    requires Bootable(physSize, kernelEnd)
    ensures 0x20_0000 <= InitMemory(physSize, kernelEnd).startUser <= 0xA0_0000
    ensures InitMemory(physSize, kernelEnd).startUser % PAGE_SIZE == 0
  {
    PoolSizes(physSize, kernelEnd);
    AlignUpLeast(kernelEnd - KERNEL_BASE, PAGE_SIZE);
    hide InitMemory, AlignUp;
    FirstMultiple(InitMemory(physSize, kernelEnd).startUser);
  }

  lemma FirstMultiple(u: nat)
    requires u % 0x20_0000 == 0 && 0 < u < 0xA0_0000 + 0x20_0000
    ensures 0x20_0000 <= u <= 0xA0_0000
  {}

  lemma GeoArithmetic(u: nat, c: nat, f: nat, t: nat, user: nat, core: nat, bytes: nat)
    requires u % PAGE_SIZE == 0 && u <= 0xA0_0000 + PAGE_SIZE && 1 <= t < 0x8_0000
    requires user == (t - t / 4 - 1) / 2 && core == t - t / 4 - 1 - user && bytes == core / 8
    requires c == u + user * PAGE_SIZE && f == c + core * PAGE_SIZE
    ensures u <= c && c + 8 * bytes * PAGE_SIZE <= f
    ensures u + 8 * bytes * PAGE_SIZE <= 0x80_0000_0000
    ensures (KERNEL_BASE + u) % PAGE_SIZE == 0
  {
    ModOfSum(u, KERNEL_BASE / PAGE_SIZE, PAGE_SIZE);
  }

  // ---- clearing the bitmaps ----

  /** The word at byte address a after the bytes [lo, hi) have been set to 0; lo and a
      are multiples of 8. */
  function ClearedWord(e: nat, a: nat, lo: nat, hi: nat): nat {
    if a < lo || hi <= a then e
    else if a + 8 <= hi then 0
    else AlignDown(e, Pow2(8 * (hi - a)))
  }

  /** bitmap_init stores its zeros in physical memory, where the boot tables also lie. */
  function ClearBytes(m: Frames, lo: nat, hi: nat): (m': Frames)
    ensures forall f: nat, i: nat :: Word(m', f, i) == ClearedWord(Word(m, f, i), f * 0x1000 + i * 8, lo, hi)
  {
    var m' := map k | k in m :: ClearedWord(m[k], k.0 * 0x1000 + k.1 * 8, lo, hi);
    ZeroStays(lo, hi);
    m'
  }

  lemma ZeroStays(lo: nat, hi: nat)
    ensures forall a: nat :: ClearedWord(0, a, lo, hi) == 0
  {}

  /** Memory after the four bitmap_init calls of init_memory, with every byte stored where
      the boot tables map it. Above 34515 pages this is an idealisation: the stores that
      follow the one that clears PML4 entry 0 are translated through that entry themselves.
      What is concluded from it there is only that the entry is gone. */
  function AfterBitmaps(m: Frames, p: Pools): Frames {
    ClearBytes(m, BITMAP_4K_ADDR, p.bitmapVirt + p.bytesCore)
  }

  /** Bitmaps that end below the boot tables leave them alone. */
  lemma TablesSpared(m: Frames, hi: nat)
    requires BootTables(m) && hi <= BOOT_TABLES_ADDR
    ensures BootTables(ClearBytes(m, BITMAP_4K_ADDR, hi))
  {
    hide ClearBytes, BootEntry;
  }

  /** Bitmaps that reach them clear the low byte of PML4 entry 0, and with it the present bit. */
  lemma TablesHit(m: Frames, hi: nat)
    requires BootTables(m) && BOOT_TABLES_ADDR < hi
    ensures !Present(Word(ClearBytes(m, BITMAP_4K_ADDR, hi), BOOT_PML4, 0))
  {
    assert Word(m, 0x90, 0) == 0x91007;
    hide ClearBytes, BootTables, Pow2;
    if hi < 0x9_0008 {
      LowBytesClear(0x91007, hi - 0x9_0000);
    }
  }

  lemma LowBytesClear(e: nat, k: nat)
    requires k >= 1
    ensures !Present(AlignDown(e, Pow2(8 * k)))
  {
    AlignDownMultiple(e, Pow2(8 * k));
    hide AlignDown;
    EvenMultiple(AlignDown(e, Pow2(8 * k)), Pow2(8 * k - 1));
  }

  lemma EvenMultiple(n: nat, half: nat)
    requires half > 0 && n % (2 * half) == 0
    ensures n % 2 == 0
  {
    var q := n / (2 * half);
    MulAssoc(q, 2, half);
    DivUnique(n, 2, q * half, 0);
  }

  /** The boot tables survive the clearing of the bitmaps exactly up to 34515 pages. */
  lemma BitmapsSpareTables(physSize: nat, kernelEnd: nat, m: Frames)
    requires RoomAboveKernel(physSize, kernelEnd) && physSize <= PHYS_LIMIT && BootTables(m)
    ensures var p := InitMemory(physSize, kernelEnd);
            (p.totalPages <= 34515 ==> BootTables(AfterBitmaps(m, p)))
            && (34515 < p.totalPages ==> !Present(Word(AfterBitmaps(m, p), BOOT_PML4, 0)))
  {
    BitmapsBelowTables(physSize, kernelEnd);
    hide InitMemory, RoomAboveKernel, BootTables, ClearBytes;
    var p := InitMemory(physSize, kernelEnd);
    if p.totalPages <= 34515 {
      TablesSpared(m, p.bitmapVirt + p.bytesCore);
    } else {
      TablesHit(m, p.bitmapVirt + p.bytesCore);
    }
  }

  lemma AllClear(bits: seq<bool>)
    requires forall k :: 0 <= k < |bits| ==> !bits[k]
    ensures Ones(bits) == {}
  {}

  /** With empty pools and the boot tables the page allocator's invariant holds. */
  lemma BootInv(g: Geo, s: View)
    requires GeoOk(g) && 0x20_0000 <= g.userStart && g.root == BOOT_PML4
    requires |s.virt| == |s.core| == g.pages && |s.four| == g.frames
    requires Ones(s.virt) == {} && Ones(s.core) == {} && Ones(s.four) == {}
    requires BootTables(s.mem) && s.role == BOOT_ROLES && s.phys == map[]
    ensures Inv(g, s)
  {
    BootWellFormed(s.mem);
    hide WellFormed, BootTables, GeoOk;
    assert forall k: nat :: k < |s.four| && s.four[k] ==> k in Ones(s.four);
  }

  /** Without a present entry in PML4 slot 0 there is no invariant. */
  lemma NoTablesNoInv(g: Geo, s: View)
    requires g.root == BOOT_PML4 && !Present(Word(s.mem, BOOT_PML4, 0))
    ensures !Inv(g, s)
  {
    hide GeoOk, Capacity, Mapping;
  }

  // ---- the kernel image ----

  /** Below the virtual pool the kernel half maps physical memory one to one, for the kernel
      alone, as the loader has set it up. */
  ghost predicate KernelMapped(g: Geo, m: Frames) {
    forall v: nat :: KERNEL_BASE <= v < g.virtStart ==>
      Access(m, g.root, v) == Some(Target(v - KERNEL_BASE, true, false))
  }

  lemma BootKernelMapped(g: Geo, m: Frames)
    requires BootTables(m) && g.root == BOOT_PML4 && g.virtStart <= KERNEL_BASE + 0xA0_0000
    ensures KernelMapped(g, m)
  {
    hide BootTables, Access;
    forall v: nat | KERNEL_BASE <= v < g.virtStart
      ensures Access(m, g.root, v) == Some(Target(v - KERNEL_BASE, true, false))
    {
      BootTranslation(m, v);
    }
  }

  lemma BootTranslation(m: Frames, v: nat)
    requires BootTables(m) && KERNEL_BASE <= v < KERNEL_BASE + 0xA0_0000
    ensures Access(m, BOOT_PML4, v) == Some(Target(v - KERNEL_BASE, true, false))
  {
    KernelOffset(v);
    BootWellFormed(m);
    TranslateData(m, BOOT_PML4, BOOT_ROLES, v);
    var i := (v - KERNEL_BASE) / 0x20_0000;
    BootPath(m, i);
    BootPage(i);
    ModOfSum(v - KERNEL_BASE, 0x7FF_FC00_0000, 0x20_0000);
    hide BootTables, WellFormed, Access, Base2M, Present, FrameOf, I4, I2, Canonical;
  }

  /** The loader's path to the page directory of the first gigabyte, from slot 256. */
  lemma BootPath(m: Frames, i: nat)
    requires BootTables(m) && i < 5
    ensures Present(E4(m, BOOT_PML4, 256)) && Present(E3(m, BOOT_PML4, 256, 0))
    ensures E2(m, BOOT_PML4, 256, 0, i) == i * 0x20_0000 + 0x83
  {
    assert Word(m, 0x90, 256) == 0x91007 && Word(m, 0x91, 0) == 0x92007;
    assert FrameOf(0x91007) == 0x91 && FrameOf(0x92007) == 0x92;
    assert Word(m, 0x92, i) == i * 0x20_0000 + 0x83;
    hide BootTables, FrameOf;
  }

  lemma BootPage(i: nat)
    requires i < 5
    ensures var e := i * 0x20_0000 + 0x83;
            Present(e) && WriteBit(e) && !UserBit(e) && Base2M(e) == i * 0x20_0000
  {
    LowBits(i * 0x4_0000 + 0x10, 3);
    DivUnique(i * 0x20_0000 + 0x83, 0x20_0000, i, 0x83);
  }

  /** page_alloc and page_free leave the mapping of the kernel image alone. */
  lemma KernelStaysMapped(g: Geo, m: Frames, m': Frames, idx: nat, cnt: nat)
    requires GeoOk(g) && idx + cnt <= g.pages && KernelMapped(g, m) && OthersSame(g, m, m', idx, cnt)
    ensures KernelMapped(g, m')
  {
    forall v: nat | KERNEL_BASE <= v < g.virtStart
      ensures Access(m', g.root, v) == Some(Target(v - KERNEL_BASE, true, false))
    {
      KernelUntouched(g, idx, cnt, v);
      hide Access, GeoOk, Touches, DataAddress;
    }
  }

  lemma KernelSurvivesMaps(g: Geo, m: Frames, m': Frames, i: nat, p: nat)
    requires GeoOk(g) && i < g.pages && KernelMapped(g, m) && Maps(g.root, m, m', VPage(g, i), p)
    ensures KernelMapped(g, m')
  {
    forall v: nat | KERNEL_BASE <= v < g.virtStart
      ensures Access(m', g.root, v) == Some(Target(v - KERNEL_BASE, true, false))
    {
      KernelUntouched(g, i, 1, v);
      assert !SamePage(VPage(g, i), v);
      hide Access, GeoOk, Touches, DataAddress, SamePage;
    }
  }

  lemma KernelUntouched(g: Geo, idx: nat, cnt: nat, v: nat)
    requires GeoOk(g) && idx + cnt <= g.pages && KERNEL_BASE <= v < g.virtStart
    ensures DataAddress(v) && !Touches(g, idx, cnt, v)
  {
    KernelOffset(v);
    forall i: nat | idx <= i < idx + cnt ensures !SamePage(VPage(g, i), v) {
      VPageAddress(g, i);
      VirtOffset(g, VPage(g, i));
      BelowPage(g, i, v);
      hide I4, I3, I2, VPage, GeoOk, InVirt;
    }
  }

  lemma BelowPage(g: Geo, i: nat, v: nat)
    requires GeoOk(g) && KERNEL_BASE <= v < g.virtStart
    ensures (v - KERNEL_BASE) / PAGE_SIZE < (VPage(g, i) - KERNEL_BASE) / PAGE_SIZE
  {
    var s := (g.virtStart - KERNEL_BASE) / PAGE_SIZE;
    ModOfSum(g.virtStart - KERNEL_BASE, 0x7FF_FC00_0000, PAGE_SIZE);
    ModOfSum(g.virtStart - KERNEL_BASE, i, PAGE_SIZE);
    assert g.virtStart - KERNEL_BASE == s * PAGE_SIZE;
  }

  /** The kernel's own variables, the slab caches among them, lie in no page of a pool and
      in no page table. */
  lemma KernelImageApart(g: Geo, s: View, v: nat, f: nat)
    requires Inv(g, s) && KernelMapped(g, s.mem) && g.virtStart == KERNEL_BASE + g.userStart
    requires KERNEL_BASE + KERNEL_ADDR <= v < g.virtStart && f in s.role
    ensures Translate(s.mem, g.root, v) == Some(v - KERNEL_BASE)
    ensures v - KERNEL_BASE < g.userStart <= g.coreStart <= g.fourStart && (v - KERNEL_BASE) / PAGE_SIZE_4K != f
  {
    assert TableFrame(g, s.four, f);
    hide WellFormed, Access, Capacity, Mapping;
    FrameApart(v - KERNEL_BASE, g.fourStart, f, f < 0x100);
  }

  lemma FrameApart(pa: nat, start: nat, f: nat, low: bool)
    requires 0x10_0000 <= pa < start && start % 0x1000 == 0 && if low then f < 0x100 else start / 0x1000 <= f
    ensures pa / 0x1000 != f
  {}
}
