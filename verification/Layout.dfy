/** Constants of kernel/memory/memory.h and the pool arithmetic of `init_memory`. */
module Layout {
  import opened Words

  const PAGE_SIZE: nat := 0x20_0000
  const PAGE_SIZE_4K: nat := 0x1000
  const BITMAP_4K_ADDR: nat := 0x8000
  const IDT_ADDR: nat := 0x1_0000

  /** PAGE_BASE of boot/loader.asm: the boot PML4, followed by four more tables. */
  const BOOT_TABLES_ADDR: nat := 0x9_0000

  /** Where the kernel image starts (kernel.lds). */
  const KERNEL_ADDR: nat := 0x10_0000
  const WORD_LIMIT: nat := 0x1_0000_0000_0000_0000

  /** Where the kernel half of the address space starts: slot 256 of the PML4. */
  const KERNEL_BASE: nat := 0xFFFF_8000_0000_0000

  /** Physical addresses have 52 bits. */
  const PHYS_LIMIT: nat := 0x10_0000_0000_0000

  function Sub64(a: nat, b: nat): nat {
    (a - b) % WORD_LIMIT
  }

  /** ALIGN_UP_2MB. */
  function AlignUp2MB(addr: nat): nat {
    And((addr + (PAGE_SIZE - 1)) % WORD_LIMIT, Not64(PAGE_SIZE - 1))
  }

  lemma AlignUp2MBValue(addr: nat)
    requires addr + PAGE_SIZE < WORD_LIMIT
    ensures AlignUp2MB(addr) == AlignUp(addr, PAGE_SIZE)
  {
    Pow2Values();
    AndNotMask(addr + (PAGE_SIZE - 1), 21);
    hide And, Pow2, Not64;
    Small64(addr + (PAGE_SIZE - 1));
  }

  lemma Small64(n: nat)
    requires n < WORD_LIMIT
    ensures n % WORD_LIMIT == n
  {
    DivUnique(n, WORD_LIMIT, 0, n);
  }

  /** The values that init_memory stores in the four pools and their bitmaps. */
  datatype Pools = Pools(
    totalPages: nat,
    pages4k: nat, pagesUser: nat, pagesCore: nat,
    start4k: nat, startUser: nat, startCore: nat, startVirt: nat,
    bytes4k: nat, bytesUser: nat, bytesCore: nat,
    bitmapUser: nat, bitmapCore: nat, bitmapVirt: nat)

  /** init_memory up to the slab caches. `kernelEnd` is the address of `_end`. */
  function InitMemory(physSize: nat, kernelEnd: nat): Pools {
    var end := And(kernelEnd, 0x7FFF_FFFF_FFFF);
    var totalPages := Shr(Sub64(physSize, AlignUp2MB(end)), 21);
    var pages4k := totalPages / 4 * (PAGE_SIZE / PAGE_SIZE_4K);
    var pages2m := Sub64(Sub64(totalPages, totalPages / 4), 1);
    var pagesUser := pages2m / 2;
    var pagesCore := pages2m - pagesUser;
    var bytes4k := pages4k / 8 % 0x1_0000_0000;
    var bytesUser := pagesUser / 8 % 0x1_0000_0000;
    var bytesCore := pagesCore / 8 % 0x1_0000_0000;
    var startUser := AlignUp2MB(end);
    var startCore := startUser + pagesUser * PAGE_SIZE;
    var start4k := startCore + pagesCore * PAGE_SIZE;
    var bitmapUser := BITMAP_4K_ADDR + bytes4k;
    var bitmapCore := bitmapUser + bytesUser;
    var bitmapVirt := bitmapCore + bytesCore;
    Pools(totalPages, pages4k, pagesUser, pagesCore,
          start4k, startUser, startCore, AlignUp2MB(kernelEnd),
          bytes4k, bytesUser, bytesCore, bitmapUser, bitmapCore, bitmapVirt)
  }

  /** At least one 2 MB page of memory lies above the kernel image. */
  ghost predicate RoomAboveKernel(physSize: nat, kernelEnd: nat) {
    KERNEL_BASE <= kernelEnd < WORD_LIMIT - PAGE_SIZE
    && AlignUp(kernelEnd - KERNEL_BASE, PAGE_SIZE) + PAGE_SIZE <= physSize < WORD_LIMIT
  }

  /** A boot whose pools the page allocator can work with: the kernel image lies in the
      10 MB that the loader maps (boot/loader.asm:197-201), and memory ends below 1 TB,
      so that the kernel pool stays in PML4 slot 256. */
  ghost predicate Bootable(physSize: nat, kernelEnd: nat) {
    RoomAboveKernel(physSize, kernelEnd)
    && KERNEL_BASE + 0x10_0000 <= kernelEnd <= KERNEL_BASE + 0xA0_0000 && physSize < 0x100_0000_0000
  }

  lemma KernelEndMasked(kernelEnd: nat)
    requires KERNEL_BASE <= kernelEnd < WORD_LIMIT
    ensures And(kernelEnd, 0x7FFF_FFFF_FFFF) == kernelEnd - KERNEL_BASE
  {
    Pow2Values();
    AndField(kernelEnd, 47, 0);
    hide *;
    assert kernelEnd % 0x8000_0000_0000 == kernelEnd - KERNEL_BASE by {
      DivUnique(kernelEnd, 0x8000_0000_0000, 0x1_FFFF, kernelEnd - KERNEL_BASE);
    }
  }

  lemma KernelEndAligned(kernelEnd: nat)
    requires KERNEL_BASE <= kernelEnd < WORD_LIMIT - PAGE_SIZE
    ensures AlignUp2MB(kernelEnd - KERNEL_BASE) == AlignUp(kernelEnd - KERNEL_BASE, PAGE_SIZE)
    ensures AlignUp2MB(kernelEnd) == KERNEL_BASE + AlignUp(kernelEnd - KERNEL_BASE, PAGE_SIZE)
  {
    AlignUp2MBValue(kernelEnd);
    AlignUp2MBValue(kernelEnd - KERNEL_BASE);
    hide AlignUp2MB, And, Pow2;
    AlignShifted(kernelEnd - KERNEL_BASE);
  }

  lemma AlignShifted(x: nat)
    ensures AlignUp(KERNEL_BASE + x, 0x20_0000) == KERNEL_BASE + AlignUp(x, 0x20_0000)
  {
    ModOfSum(x + 0x20_0000 - 1, 0x7FFF_C000_000, 0x20_0000);
  }

  lemma SizeArithmetic(physSize: nat, u: nat, t: nat)
    requires u % 0x20_0000 == 0 && u + 0x20_0000 <= physSize < WORD_LIMIT
    requires t == (physSize - u) / 0x20_0000
    ensures Sub64(physSize, u) == physSize - u
    ensures 1 <= t && u + t * 0x20_0000 <= physSize
    ensures Sub64(Sub64(t, t / 4), 1) == t - t / 4 - 1
  {
    Small64(physSize - u);
    Small64(t - t / 4);
    Small64(t - t / 4 - 1);
  }

  /** The numbers of pages as plain arithmetic; the byte counts are cut to 32 bits. */
  lemma PoolSizes(physSize: nat, kernelEnd: nat)
    requires RoomAboveKernel(physSize, kernelEnd)
    ensures var p := InitMemory(physSize, kernelEnd);
            var t := p.totalPages;
            p.startUser == AlignUp(kernelEnd - KERNEL_BASE, PAGE_SIZE)
            && p.startVirt == KERNEL_BASE + p.startUser
            && p.startUser + t * PAGE_SIZE <= physSize && 1 <= t
            && p.pages4k == t / 4 * 512
            && p.pagesUser == (t - t / 4 - 1) / 2
            && p.pagesCore == t - t / 4 - 1 - p.pagesUser
            && p.bytes4k == p.pages4k / 8 % 0x1_0000_0000
            && p.bytesUser == p.pagesUser / 8 % 0x1_0000_0000
            && p.bytesCore == p.pagesCore / 8 % 0x1_0000_0000
  {
    hide AlignUp2MB, AlignUp, And, Pow2, Sub64, Shr, InitMemory;
    var u := AlignUp(kernelEnd - KERNEL_BASE, PAGE_SIZE);
    var t := (physSize - u) / 0x20_0000;
    KernelEndMasked(kernelEnd);
    KernelEndAligned(kernelEnd);
    AlignUpLeast(kernelEnd - KERNEL_BASE, PAGE_SIZE);
    ShrPage(physSize - u);
    SizeArithmetic(physSize, u, t);
    Counts(physSize, kernelEnd, u, t);
  }

  lemma Counts(physSize: nat, kernelEnd: nat, u: nat, t: nat)
    requires KERNEL_BASE <= kernelEnd && And(kernelEnd, 0x7FFF_FFFF_FFFF) == kernelEnd - KERNEL_BASE
    requires AlignUp2MB(kernelEnd - KERNEL_BASE) == u && AlignUp2MB(kernelEnd) == KERNEL_BASE + u
    requires Shr(Sub64(physSize, u), 21) == t && Sub64(Sub64(t, t / 4), 1) == t - t / 4 - 1
    ensures var p := InitMemory(physSize, kernelEnd);
            p.totalPages == t && p.startUser == u && p.startVirt == KERNEL_BASE + u
            && p.pages4k == t / 4 * 512
            && p.pagesUser == (t - t / 4 - 1) / 2
            && p.pagesCore == t - t / 4 - 1 - p.pagesUser
            && p.bytes4k == p.pages4k / 8 % 0x1_0000_0000
            && p.bytesUser == p.pagesUser / 8 % 0x1_0000_0000
            && p.bytesCore == p.pagesCore / 8 % 0x1_0000_0000
  {
    hide AlignUp2MB, And, Sub64, Shr;
  }

  /** With at most 512 TB no byte count is cut. */
  lemma BytesFit(t: nat)
    requires 1 <= t < 0x1000_0000
    ensures t / 4 * 512 / 8 % 0x1_0000_0000 == t / 4 * 64
    ensures var m := t - t / 4 - 1;
            m / 2 / 8 % 0x1_0000_0000 == m / 2 / 8 && (m - m / 2) / 8 % 0x1_0000_0000 == (m - m / 2) / 8
  {}

  lemma BootSizes(physSize: nat, kernelEnd: nat)
    requires Bootable(physSize, kernelEnd)
    ensures var p := InitMemory(physSize, kernelEnd);
            p.totalPages < 0x8_0000 && p.bytes4k == p.totalPages / 4 * 64
            && p.bytesUser == p.pagesUser / 8 && p.bytesCore == p.pagesCore / 8
  {
    PoolSizes(physSize, kernelEnd);
    hide InitMemory, AlignUp;
    PagesBelow(InitMemory(physSize, kernelEnd).totalPages, physSize, 0x8_0000);
    BytesFit(InitMemory(physSize, kernelEnd).totalPages);
  }

  lemma PagesBelow(t: nat, size: nat, limit: nat)
    requires t * 0x20_0000 <= size < limit * 0x20_0000
    ensures t < limit
  {}

  lemma ShrPage(n: nat)
    ensures Shr(n, 21) == n / PAGE_SIZE
  {
    Pow2Values();
  }

  /** init_memory partitions the memory above the kernel: three contiguous pools,
      the 2 MB pools first, that end inside the counted memory, and four bitmaps
      that follow each other from 0x8000 and never have more bits than pages. */
  lemma PoolsPartitionMemory(physSize: nat, kernelEnd: nat)
    requires RoomAboveKernel(physSize, kernelEnd)
    ensures var p := InitMemory(physSize, kernelEnd);
            kernelEnd - KERNEL_BASE <= p.startUser && p.startUser % PAGE_SIZE == 0
            && p.startVirt == KERNEL_BASE + p.startUser
            && p.startUser + p.pagesUser * PAGE_SIZE == p.startCore && p.startCore % PAGE_SIZE == 0
            && p.startCore + p.pagesCore * PAGE_SIZE == p.start4k && p.start4k % PAGE_SIZE == 0
            && p.start4k + p.pages4k * PAGE_SIZE_4K <= physSize
            && 8 * p.bytes4k <= p.pages4k && 8 * p.bytesUser <= p.pagesUser && 8 * p.bytesCore <= p.pagesCore
            && p.bitmapUser == BITMAP_4K_ADDR + p.bytes4k
            && p.bitmapCore == p.bitmapUser + p.bytesUser
            && p.bitmapVirt == p.bitmapCore + p.bytesCore
  {
    hide AlignUp2MB, AlignUp, And, Pow2, Sub64, Shr;
    PoolSizes(physSize, kernelEnd);
    AlignUpLeast(kernelEnd - KERNEL_BASE, PAGE_SIZE);
    BitmapPlaces(physSize, kernelEnd);
    var p := InitMemory(physSize, kernelEnd);
    PoolPlaces(physSize, kernelEnd);
    hide InitMemory;
    PartitionArithmetic(p.startUser, p.totalPages);
    CutBytes(p.pages4k);
    CutBytes(p.pagesUser);
    CutBytes(p.pagesCore);
  }

  lemma PoolPlaces(physSize: nat, kernelEnd: nat)
    ensures var p := InitMemory(physSize, kernelEnd);
            p.startCore == p.startUser + p.pagesUser * PAGE_SIZE && p.start4k == p.startCore + p.pagesCore * PAGE_SIZE
  {
    hide AlignUp2MB, And, Sub64, Shr;
  }

  lemma CutBytes(pages: nat)
    ensures 8 * (pages / 8 % 0x1_0000_0000) <= pages
  {}

  lemma PartitionArithmetic(u: nat, t: nat)
    requires u % PAGE_SIZE == 0 && 1 <= t
    ensures var user := (t - t / 4 - 1) / 2;
            var core := t - t / 4 - 1 - user;
            (u + user * PAGE_SIZE) % PAGE_SIZE == 0
            && (u + user * PAGE_SIZE + core * PAGE_SIZE) % PAGE_SIZE == 0
            && u + user * PAGE_SIZE + core * PAGE_SIZE + t / 4 * 512 * PAGE_SIZE_4K <= u + t * PAGE_SIZE
  {
    var user := (t - t / 4 - 1) / 2;
    ModOfSum(u, user, PAGE_SIZE);
    ModOfSum(u, t - t / 4 - 1, PAGE_SIZE);
  }

  /** The bitmaps stay below the interrupt descriptor table exactly up to 2031 pages. */
  lemma BitmapsBelowIdt(physSize: nat, kernelEnd: nat)
    requires RoomAboveKernel(physSize, kernelEnd) && physSize <= PHYS_LIMIT
    ensures var p := InitMemory(physSize, kernelEnd);
            p.bitmapVirt + p.bytesCore <= IDT_ADDR <==> p.totalPages <= 2031
  {
    BitmapsEnd(physSize, kernelEnd);
    hide InitMemory, AlignUp;
    BytesBelow(InitMemory(physSize, kernelEnd).totalPages, 507, 0x1_0000);
  }

  /** They stay below the boot page tables exactly up to 34515 pages: from there on
      bitmap_init clears the PML4 in use. */
  lemma BitmapsBelowTables(physSize: nat, kernelEnd: nat)
    requires RoomAboveKernel(physSize, kernelEnd) && physSize <= PHYS_LIMIT
    ensures var p := InitMemory(physSize, kernelEnd);
            p.bitmapVirt + p.bytesCore <= BOOT_TABLES_ADDR <==> p.totalPages <= 34515
  {
    BitmapsEnd(physSize, kernelEnd);
    hide InitMemory, AlignUp;
    BytesBelow(InitMemory(physSize, kernelEnd).totalPages, 8628, 0x9_0000);
  }

  /** They stay below the kernel image exactly up to 62935 pages. */
  lemma BitmapsBelowKernel(physSize: nat, kernelEnd: nat)
    requires RoomAboveKernel(physSize, kernelEnd) && physSize <= PHYS_LIMIT
    ensures var p := InitMemory(physSize, kernelEnd);
            p.bitmapVirt + p.bytesCore <= KERNEL_ADDR <==> p.totalPages <= 62935
  {
    BitmapsEnd(physSize, kernelEnd);
    hide InitMemory, AlignUp;
    BytesBelow(InitMemory(physSize, kernelEnd).totalPages, 15733, 0x10_0000);
  }

  /** A machine with 128 GB has too much memory for this. */
  lemma BitmapsOverTables()
    ensures var (physSize, kernelEnd) := (0x20_0000_0000, KERNEL_BASE + 0x12_0000);
            Bootable(physSize, kernelEnd) && InitMemory(physSize, kernelEnd).totalPages == 65535
            && BOOT_TABLES_ADDR < InitMemory(physSize, kernelEnd).bitmapVirt + InitMemory(physSize, kernelEnd).bytesCore
  {
    var (physSize, kernelEnd) := (0x20_0000_0000, KERNEL_BASE + 0x12_0000);
    assert AlignUp(kernelEnd - KERNEL_BASE, PAGE_SIZE) == 0x20_0000;
    hide AlignUp, InitMemory;
    PoolSizes(physSize, kernelEnd);
    TotalPages(physSize, kernelEnd);
    BitmapsBelowTables(physSize, kernelEnd);
  }

  lemma TotalPages(physSize: nat, kernelEnd: nat)
    requires RoomAboveKernel(physSize, kernelEnd)
    ensures InitMemory(physSize, kernelEnd).totalPages ==
            (physSize - AlignUp(kernelEnd - KERNEL_BASE, PAGE_SIZE)) / PAGE_SIZE
  {
    hide AlignUp2MB, AlignUp, And, Pow2, Sub64, Shr;
    var u := AlignUp(kernelEnd - KERNEL_BASE, PAGE_SIZE);
    KernelEndMasked(kernelEnd);
    KernelEndAligned(kernelEnd);
    AlignUpLeast(kernelEnd - KERNEL_BASE, PAGE_SIZE);
    ShrPage(physSize - u);
    SizeArithmetic(physSize, u, (physSize - u) / 0x20_0000);
  }

  lemma BitmapPlaces(physSize: nat, kernelEnd: nat)
    ensures var p := InitMemory(physSize, kernelEnd);
            p.bitmapUser == BITMAP_4K_ADDR + p.bytes4k
            && p.bitmapCore == p.bitmapUser + p.bytesUser
            && p.bitmapVirt == p.bitmapCore + p.bytesCore
  {
    hide AlignUp2MB, And, Sub64, Shr;
  }

  /** The end of the last bitmap, as a function of the number of pages. */
  function EndOfBitmaps(t: nat): nat
    requires 1 <= t
  {
    var user := (t - t / 4 - 1) / 2;
    var core := t - t / 4 - 1 - user;
    0x8000 + t / 4 * 512 / 8 % 0x1_0000_0000 + user / 8 % 0x1_0000_0000 + 2 * (core / 8 % 0x1_0000_0000)
  }

  lemma BitmapsEnd(physSize: nat, kernelEnd: nat)
    requires RoomAboveKernel(physSize, kernelEnd)
    ensures var p := InitMemory(physSize, kernelEnd);
            1 <= p.totalPages && p.bitmapVirt + p.bytesCore == EndOfBitmaps(p.totalPages)
            && (physSize <= PHYS_LIMIT ==> p.totalPages <= 0x8000_0000)
  {
    PoolSizes(physSize, kernelEnd);
    BitmapPlaces(physSize, kernelEnd);
    hide InitMemory, AlignUp, RoomAboveKernel, EndOfBitmaps;
    var p := InitMemory(physSize, kernelEnd);
    EndIs(p.totalPages, p.pages4k, p.pagesUser, p.pagesCore, p.bytes4k, p.bytesUser, p.bytesCore);
    if physSize <= PHYS_LIMIT {
      PagesBelow(p.totalPages, physSize, 0x8000_0001);
    }
  }

  lemma EndIs(t: nat, pages4k: nat, user: nat, core: nat, bytes4k: nat, bytesUser: nat, bytesCore: nat)
    requires 1 <= t && pages4k == t / 4 * 512 && user == (t - t / 4 - 1) / 2 && core == t - t / 4 - 1 - user
    requires bytes4k == pages4k / 8 % 0x1_0000_0000 && bytesUser == user / 8 % 0x1_0000_0000
    requires bytesCore == core / 8 % 0x1_0000_0000
    ensures EndOfBitmaps(t) == 0x8000 + bytes4k + bytesUser + 2 * bytesCore
  {}

  /** The bytes of the 2 MB bitmaps, for m pages in the user and core pools. */
  function HalfBytes(m: nat): nat {
    m / 2 / 8 + 2 * ((m - m / 2) / 8)
  }

  lemma HalfBytesMono(m: nat, n: nat)
    requires m <= n
    ensures HalfBytes(m) <= HalfBytes(n)
  {}

  /** The bitmaps end at or below a limit exactly up to 4 * q + 3 pages. */
  lemma BytesBelow(t: nat, q: nat, limit: nat)
    requires 1 <= t <= 0x8000_0000 && limit <= 0x10_0000
    requires 0x8000 + q * 64 + HalfBytes(3 * q + 2) <= limit < 0x8000 + (q + 1) * 64 + HalfBytes(3 * q + 2)
    ensures EndOfBitmaps(t) <= limit <==> t <= 4 * q + 3
  {
    hide EndOfBitmaps, HalfBytes;
    if t >= 0x1000_0000 {
      ManyPages(t);
    } else if t <= 4 * q + 3 {
      FewPages(t);
      HalfBytesMono(t - t / 4 - 1, 3 * q + 2);
    } else {
      FewPages(t);
      HalfBytesMono(3 * q + 2, t - t / 4 - 1);
    }
  }

  lemma FewPages(t: nat)
    requires 1 <= t < 0x1000_0000
    ensures EndOfBitmaps(t) == 0x8000 + t / 4 * 64 + HalfBytes(t - t / 4 - 1)
  {
    BytesFit(t);
  }

  /** Where the 4 KB bitmap's size is cut, the user bitmap alone is too long. */
  lemma ManyPages(t: nat)
    requires 0x1000_0000 <= t <= 0x8000_0000
    ensures EndOfBitmaps(t) > 0x10_0000
  {
    var user := (t - t / 4 - 1) / 2;
    assert 0x8000_0000 > user / 8 > 0x10_0000;
  }

  /** The sixteen slab caches of init_memory take one 2 MB page each: there are
      enough of them exactly from 42 pages on. */
  lemma EnoughForCaches(physSize: nat, kernelEnd: nat)
    requires RoomAboveKernel(physSize, kernelEnd) && physSize <= PHYS_LIMIT
    ensures var p := InitMemory(physSize, kernelEnd);
            16 <= 8 * p.bytesCore <==> 42 <= p.totalPages
  {
    PoolSizes(physSize, kernelEnd);
    hide InitMemory, AlignUp, RoomAboveKernel;
    var p := InitMemory(physSize, kernelEnd);
    PagesBelow(p.totalPages, physSize, 0x8000_0001);
    CorePages(p.totalPages, p.pagesUser, p.pagesCore, p.bytesCore);
  }

  lemma CorePages(t: nat, user: nat, core: nat, bytes: nat)
    requires 1 <= t <= 0x8000_0000 && user == (t - t / 4 - 1) / 2 && core == t - t / 4 - 1 - user
    requires bytes == core / 8 % 0x1_0000_0000
    ensures 16 <= 8 * bytes <==> 42 <= t
    ensures 8 * bytes == 0 <==> t <= 20
    ensures 8 * bytes == 8 <==> 21 <= t <= 41
    ensures 8 * bytes == 16 <==> 42 <= t <= 62
  {}

  /** The core pool's bitmap has no bit up to 20 pages, 8 up to 41 and 16 up to 62: with 42
      to 62 pages the caches take every page there is. */
  lemma FewCorePages(physSize: nat, kernelEnd: nat)
    requires RoomAboveKernel(physSize, kernelEnd) && physSize <= PHYS_LIMIT
    ensures var p := InitMemory(physSize, kernelEnd);
            (8 * p.bytesCore == 0 <==> p.totalPages <= 20)
            && (8 * p.bytesCore == 8 <==> 21 <= p.totalPages <= 41)
            && (8 * p.bytesCore == 16 <==> 42 <= p.totalPages <= 62)
  {
    PoolSizes(physSize, kernelEnd);
    hide InitMemory, AlignUp, RoomAboveKernel;
    var p := InitMemory(physSize, kernelEnd);
    PagesBelow(p.totalPages, physSize, 0x8000_0001);
    CorePages(p.totalPages, p.pagesUser, p.pagesCore, p.bytesCore);
  }

  /** A machine with 128 MB, as the BIOS counts it, has 62 pages. */
  lemma SmallMachine()
    ensures var (physSize, kernelEnd) := (0x7F7_FC00, KERNEL_BASE + 0x12_0000);
            var p := InitMemory(physSize, kernelEnd);
            Bootable(physSize, kernelEnd) && p.totalPages == 62 && 8 * p.bytesCore == 16
  {
    var (physSize, kernelEnd) := (0x7F7_FC00, KERNEL_BASE + 0x12_0000);
    assert AlignUp(kernelEnd - KERNEL_BASE, PAGE_SIZE) == 0x20_0000;
    hide AlignUp, InitMemory;
    TotalPages(physSize, kernelEnd);
    FewCorePages(physSize, kernelEnd);
  }

  /** The 4 KB pool can hold a page directory for every gigabyte that the kernel
      virtual pool touches, so page tables never exhaust it. */
  lemma EnoughForPageTables(physSize: nat, kernelEnd: nat)
    requires Bootable(physSize, kernelEnd)
    ensures var p := InitMemory(physSize, kernelEnd);
            0 < p.bytesCore ==> 8 * p.bytesCore / 512 + 2 <= 8 * p.bytes4k
  {
    PoolSizes(physSize, kernelEnd);
    BootSizes(physSize, kernelEnd);
    hide InitMemory, AlignUp;
  }
}
