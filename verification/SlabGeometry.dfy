/** Where the items of a slab lie (kernel/memory/slab.c) and how an address leads
    back to its slab, its item and its size class.
  */
module SlabGeometry {
  import opened Words
  import opened Layout

  const SLAB_START: nat := 32
  const SLAB_CACHE_SIZE: nat := 16
  const SLAB_MASK: nat := 0xFFFF_FFFF_FFE0_0000
  const SLAB_MAGIC: nat := 0x48_5848_0426

  /** sizeof(Slab) */
  const SIZEOF_SLAB: nat := 88

  /** The largest size class is half a page: exponents 0..20. */
  const MAX_EXP: nat := 20

  /** ALIGN_ADDR_UP */
  function AlignAddrUp(address: nat, size: nat): nat
    requires 0 < size <= WORD_LIMIT
  {
    And((address + size - 1) % WORD_LIMIT, Not64(size - 1))
  }

  /** GET_SLAB_ITEM */
  function GetSlabItem(address: nat, size: nat): nat
    requires 0 < size <= WORD_LIMIT
  {
    And(address, Not64(size - 1))
  }

  /** The number of item slots that the header and its alignment take. */
  function HeaderSlots(k: nat): nat {
    (SIZEOF_SLAB + Pow2(k) - 1) / Pow2(k)
  }

  function SlotsPerPage(k: nat): nat
    requires k <= MAX_EXP
  {
    Pow2(21 - k)
  }

  lemma PageSlots(k: nat)
    requires k <= MAX_EXP
    ensures SlotsPerPage(k) * Pow2(k) == PAGE_SIZE && 2 <= SlotsPerPage(k)
    ensures Pow2(k) <= PAGE_SIZE / 2
  {
    Pow2Add(21 - k, k);
    Pow2Values();
    Pow2Mono(k, 20);
    Pow2Mono(1, 21 - k);
  }

  /** The header's slots cover the header with less than one item to spare, and
      leave room for an item. */
  lemma HeaderFits(k: nat)
    requires k <= MAX_EXP
    ensures HeaderSlots(k) < SlotsPerPage(k)
    ensures SIZEOF_SLAB <= HeaderSlots(k) * Pow2(k) < SIZEOF_SLAB + Pow2(k)
  {
    PageSlots(k);
    var n := SIZEOF_SLAB + Pow2(k) - 1;
    DivBounds(n, Pow2(k));
    if SlotsPerPage(k) <= HeaderSlots(k) {
      MulMono(SlotsPerPage(k), HeaderSlots(k), Pow2(k));
    }
  }

  lemma DivBounds(n: nat, d: nat)
    requires d > 0
    ensures n / d * d <= n < n / d * d + d
  {}

  /** The number of items of a slab; SlabFields shows that it is `total`. */
  function Total(k: nat): (n: nat)
    requires k <= MAX_EXP
    ensures 1 <= n && HeaderSlots(k) + n == SlotsPerPage(k)
  {
    HeaderFits(k);
    SlotsPerPage(k) - HeaderSlots(k)
  }

  /** Item i of the slab at b. */
  function ItemAt(b: nat, k: nat, i: nat): nat {
    b + (HeaderSlots(k) + i) * Pow2(k)
  }

  /** The items follow each other from the first aligned address after the header
      to the end of the page, and every one is aligned to its size. */
  lemma ItemsTile(b: nat, k: nat, i: nat)
    requires k <= MAX_EXP && b % PAGE_SIZE == 0
    ensures b + SIZEOF_SLAB <= ItemAt(b, k, 0) < b + SIZEOF_SLAB + Pow2(k)
    ensures ItemAt(b, k, i + 1) == ItemAt(b, k, i) + Pow2(k)
    ensures ItemAt(b, k, Total(k)) == b + PAGE_SIZE
    ensures ItemAt(b, k, i) % Pow2(k) == 0
  {
    HeaderFits(k);
    PageSlots(k);
    hide SlotsPerPage, HeaderSlots;
    NextSlot(HeaderSlots(k) + i, Pow2(k));
    PageMultiple(b, k);
    ModOfSum(b, HeaderSlots(k) + i, Pow2(k));
  }

  lemma NextSlot(n: nat, size: nat)
    ensures (n + 1) * size == n * size + size
  {}

  lemma PageMultiple(b: nat, k: nat)
    requires k <= MAX_EXP && b % PAGE_SIZE == 0
    ensures b % Pow2(k) == 0
  {
    PageSlots(k);
    hide SlotsPerPage, Pow2;
    MultipleOfBoth(b, 0x20_0000, SlotsPerPage(k), Pow2(k));
  }

  lemma MultipleOfBoth(b: nat, page: nat, slots: nat, size: nat)
    requires 0 < size && 0 < page == slots * size && b % page == 0
    ensures b % size == 0
  {
    var q := b / page;
    MulAssoc(q, slots, size);
    DivUnique(b, size, q * slots, 0);
  }

  /** What slab_create computes with ALIGN_ADDR_UP and a division. */
  lemma SlabFields(b: nat, k: nat)
    requires k <= MAX_EXP && b % PAGE_SIZE == 0 && b + PAGE_SIZE <= WORD_LIMIT
    ensures Pow2(k) <= PAGE_SIZE
    ensures AlignAddrUp(b + SIZEOF_SLAB, Pow2(k)) == ItemAt(b, k, 0)
    ensures (b + PAGE_SIZE - ItemAt(b, k, 0)) / Pow2(k) == Total(k)
    ensures Total(k) == PAGE_SIZE / Pow2(k) - (SIZEOF_SLAB + Pow2(k) - 1) / Pow2(k)
  {
    hide SlotsPerPage, Pow2, Total, ItemAt, And, Not64;
    PageSlots(k);
    HeaderFits(k);
    PageMultiple(b, k);
    FirstItemAddress(b, k);
    ItemCount(b, k);
    TotalFormula(k);
  }

  /** `start` is the least multiple of `size` behind the header of the page at b, whose last
      field is the eight bytes of the magic word at offset 80. */
  ghost predicate FirstBehindHeader(b: nat, size: nat, start: nat)
    requires size > 0
  {
    start % size == 0 && b + 88 <= start
    && forall x: nat :: x % size == 0 && b + 88 <= x ==> start <= x
  }

  /** The items start as early as the header and their alignment allow, and fill the page. */
  lemma ItemsTight(b: nat, k: nat)
    requires k <= MAX_EXP && b % PAGE_SIZE == 0
    ensures FirstBehindHeader(b, Pow2(k), ItemAt(b, k, 0))
    ensures ItemAt(b, k, 0) + Total(k) * Pow2(k) == b + PAGE_SIZE
  {
    ItemsTile(b, k, 0);
    PageSlots(k);
    hide Pow2, SlotsPerPage, HeaderSlots, ItemAt;
    forall x: nat | x % Pow2(k) == 0 && b + 88 <= x ensures ItemAt(b, k, 0) <= x {
      if x < ItemAt(b, k, 0) {
        MultiplesApart(x, ItemAt(b, k, 0), Pow2(k));
      }
    }
    LastItem(b, k, Total(k));
  }

  lemma LastItem(b: nat, k: nat, n: nat)
    ensures ItemAt(b, k, n) == ItemAt(b, k, 0) + n * Pow2(k)
  {
    SplitSlots(HeaderSlots(k), n, Pow2(k));
    hide HeaderSlots, Pow2;
  }

  lemma SplitSlots(h: nat, n: nat, size: nat)
    ensures (h + n) * size == h * size + n * size
  {}

  lemma FirstItemAddress(b: nat, k: nat)
    requires k <= MAX_EXP && b % Pow2(k) == 0 && b + PAGE_SIZE <= WORD_LIMIT && Pow2(k) <= PAGE_SIZE / 2
    ensures AlignAddrUp(b + SIZEOF_SLAB, Pow2(k)) == ItemAt(b, k, 0)
  {
    hide Pow2, And;
    AndNotMask(b + SIZEOF_SLAB + Pow2(k) - 1, k);
    AlignFirst(b, Pow2(k), HeaderSlots(k));
  }

  lemma ItemCount(b: nat, k: nat)
    requires k <= MAX_EXP && SlotsPerPage(k) * Pow2(k) == PAGE_SIZE
    ensures ItemAt(b, k, 0) <= b + PAGE_SIZE
    ensures (b + PAGE_SIZE - ItemAt(b, k, 0)) / Pow2(k) == Total(k)
  {
    hide SlotsPerPage, HeaderSlots, Pow2;
    assert PAGE_SIZE - HeaderSlots(k) * Pow2(k) == Total(k) * Pow2(k);
    DivUnique(b + PAGE_SIZE - ItemAt(b, k, 0), Pow2(k), Total(k), 0);
  }

  lemma TotalFormula(k: nat)
    requires k <= MAX_EXP && SlotsPerPage(k) * Pow2(k) == PAGE_SIZE
    ensures Total(k) == PAGE_SIZE / Pow2(k) - (SIZEOF_SLAB + Pow2(k) - 1) / Pow2(k)
  {
    hide SlotsPerPage, Pow2;
    DivUnique(PAGE_SIZE, Pow2(k), SlotsPerPage(k), 0);
  }

  lemma AlignFirst(b: nat, size: nat, h: nat)
    requires size > 0 && b % size == 0 && h == (SIZEOF_SLAB + size - 1) / size
    ensures AlignDown(b + SIZEOF_SLAB + size - 1, size) == b + h * size
  {
    var q := b / size;
    var n := SIZEOF_SLAB + size - 1;
    assert b + n == (q + h) * size + n % size;
    DivUnique(b + n, size, q + h, n % size);
  }

  /** Items of one slab do not overlap and lie between the header and the page end. */
  lemma ItemsApart(b: nat, k: nat, i: nat, j: nat)
    requires k <= MAX_EXP && i < j
    ensures ItemAt(b, k, i) + Pow2(k) <= ItemAt(b, k, j)
  {
    hide HeaderSlots, Pow2;
    MulMono(HeaderSlots(k) + i + 1, HeaderSlots(k) + j, Pow2(k));
    NextSlot(HeaderSlots(k) + i, Pow2(k));
  }

  lemma ItemInside(b: nat, k: nat, i: nat)
    requires k <= MAX_EXP && i < Total(k)
    ensures b + SIZEOF_SLAB <= ItemAt(b, k, i) && ItemAt(b, k, i) + Pow2(k) <= b + PAGE_SIZE
  {
    hide SlotsPerPage, HeaderSlots, Pow2;
    HeaderFits(k);
    PageSlots(k);
    MulMono(HeaderSlots(k), HeaderSlots(k) + i, Pow2(k));
    MulMono(HeaderSlots(k) + i + 1, SlotsPerPage(k), Pow2(k));
    NextSlot(HeaderSlots(k) + i, Pow2(k));
  }

  /** From any address inside an item the masks recover the slab and the item. */
  lemma MasksRecover(b: nat, k: nat, i: nat, x: nat)
    requires k <= MAX_EXP && b % PAGE_SIZE == 0 && b + PAGE_SIZE <= WORD_LIMIT && i < Total(k)
    requires ItemAt(b, k, i) <= x < ItemAt(b, k, i) + Pow2(k)
    ensures Pow2(k) <= PAGE_SIZE
    ensures GetSlabItem(x, Pow2(k)) == ItemAt(b, k, i)
    ensures And(x, SLAB_MASK) == b
  {
    hide SlotsPerPage, HeaderSlots, Pow2, ItemAt, And;
    PageSlots(k);
    ItemInside(b, k, i);
    ItemsTile(b, k, i);
    AndNotMask(x, k);
    AlignInside(ItemAt(b, k, i), Pow2(k), x);
    PageOfAddress(b, x);
  }

  lemma AlignInside(a: nat, size: nat, x: nat)
    requires size > 0 && a % size == 0 && a <= x < a + size
    ensures AlignDown(x, size) == a
  {
    var q := a / size;
    assert a == q * size;
    DivUnique(x, size, q, x - a);
  }

  /** Any address inside a page leads back to the page's start. */
  lemma PageOfAddress(b: nat, x: nat)
    requires b % PAGE_SIZE == 0 && b <= x < b + PAGE_SIZE <= WORD_LIMIT
    ensures And(x, SLAB_MASK) == b
  {
    Pow2Values();
    AndNotMask(x, 21);
    hide And, Pow2;
    DivUnique(x, PAGE_SIZE, b / PAGE_SIZE, x - b);
  }

  // ---- the sixteen size classes ----

  /** The exponent of the item size of class c. */
  function Exp(c: nat): nat { c + 5 }

  function SizeOf(c: nat): (n: nat)
    ensures n > 0
  {
    Pow2(Exp(c))
  }

  /** The item sizes of the sixteen caches, the offset of the first item in a slab of each,
      and the number of items. */
  const ITEM_SIZES: seq<nat> := [0x20, 0x40, 0x80, 0x100, 0x200, 0x400, 0x800, 0x1000,
                                 0x2000, 0x4000, 0x8000, 0x1_0000, 0x2_0000, 0x4_0000, 0x8_0000, 0x10_0000]
  const FIRST_ITEMS: seq<nat> := [96, 128, 0x80, 0x100, 0x200, 0x400, 0x800, 0x1000,
                                  0x2000, 0x4000, 0x8000, 0x1_0000, 0x2_0000, 0x4_0000, 0x8_0000, 0x10_0000]
  const ITEM_COUNTS: seq<nat> := [65533, 32766, 16383, 8191, 4095, 2047, 1023, 511, 255, 127, 63, 31, 15, 7, 3, 1]

  lemma ItemSizes(c: nat)
    requires c < 16
    ensures SizeOf(c) == ITEM_SIZES[c]
  {
    LowPowers();
    HighPowers();
  }

  lemma LowPowers()
    ensures Pow2(5) == 0x20 && Pow2(6) == 0x40 && Pow2(7) == 0x80 && Pow2(8) == 0x100
    ensures Pow2(9) == 0x200 && Pow2(10) == 0x400 && Pow2(11) == 0x800 && Pow2(12) == 0x1000
  {}

  lemma HighPowers()
    ensures Pow2(13) == 0x2000 && Pow2(14) == 0x4000 && Pow2(15) == 0x8000 && Pow2(16) == 0x1_0000
    ensures Pow2(17) == 0x2_0000 && Pow2(18) == 0x4_0000 && Pow2(19) == 0x8_0000 && Pow2(20) == 0x10_0000
  {
    LowPowers();
  }

  /** The slabs of each class in numbers. */
  lemma SlabTable(b: nat, c: nat)
    requires c < 16 && b % PAGE_SIZE == 0
    ensures ItemAt(b, Exp(c), 0) == b + FIRST_ITEMS[c] && Total(Exp(c)) == ITEM_COUNTS[c]
  {
    ItemSizes(c);
    ItemsTight(b, Exp(c));
    hide Pow2, Total, ItemAt;
    var start := ItemAt(b, Exp(c), 0);
    assert b + FIRST_ITEMS[c] == start by {
      Divides(b, c);
      TightStart(b, SizeOf(c), b + FIRST_ITEMS[c], start);
    }
    CountOfSize(Total(Exp(c)), c);
  }

  lemma Divides(b: nat, c: nat)
    requires c < 16 && b % PAGE_SIZE == 0
    ensures (b + FIRST_ITEMS[c]) % ITEM_SIZES[c] == 0 && 88 <= FIRST_ITEMS[c] < 88 + ITEM_SIZES[c]
  {
    ItemSizes(c);
    PageMultiple(b, Exp(c));
    hide Pow2;
    var n := FIRST_ITEMS[c] / ITEM_SIZES[c];
    assert FIRST_ITEMS[c] == n * ITEM_SIZES[c] && 88 <= FIRST_ITEMS[c] < 88 + ITEM_SIZES[c];
    ModOfSum(b, n, SizeOf(c));
  }

  lemma TightStart(b: nat, size: nat, x: nat, start: nat)
    requires size > 0 && FirstBehindHeader(b, size, start) && x % size == 0 && b + 88 <= x < b + 88 + size
    ensures x == start
  {
    if start < x {
      MultiplesApart(start, x, size);
    }
  }

  lemma CountOfSize(n: nat, c: nat)
    requires c < 16 && FIRST_ITEMS[c] + n * ITEM_SIZES[c] == 0x20_0000
    ensures n == ITEM_COUNTS[c]
  {}

  lemma SizeValues()
    ensures SizeOf(0) == SLAB_START && SizeOf(15) == PAGE_SIZE / 2
  {
    Pow2Values();
  }

  /** kfree's class index, `ctz(slab_size) - ctz(SLAB_START)`, is the slab's class. */
  lemma ClassFromSize(c: nat)
    requires c < SLAB_CACHE_SIZE
    ensures Ctz(SizeOf(c)) >= Ctz(SLAB_START) && Ctz(SizeOf(c)) - Ctz(SLAB_START) == c
  {
    Pow2Values();
    CtzOfPow2(Exp(c));
    CtzOfPow2(5);
    hide Ctz;
  }

  /** kmalloc's choice: the least class whose items hold `size` bytes. */
  ghost predicate LeastClass(size: nat, c: nat) {
    c < SLAB_CACHE_SIZE && size <= SizeOf(c) && forall d: nat :: d < c ==> SizeOf(d) < size
  }

  /** Only the largest class has slabs of a single item. */
  lemma OneItemClass(c: nat)
    requires c < SLAB_CACHE_SIZE
    ensures Total(Exp(c)) == 1 <==> c == SLAB_CACHE_SIZE - 1
  {
    var k := Exp(c);
    PageSlots(k);
    HeaderFits(k);
    Pow2Values();
    if c == 15 {
      assert SlotsPerPage(k) == 2 && Pow2(k) == 0x10_0000;
    } else {
      Pow2Mono(k, 19);
      hide SlotsPerPage, HeaderSlots, Pow2;
      SlotsApart(SlotsPerPage(k), HeaderSlots(k), Pow2(k));
    }
  }

  lemma SlotsApart(slots: nat, header: nat, size: nat)
    requires slots * size == PAGE_SIZE && header * size < SIZEOF_SLAB + size && 0 < size <= PAGE_SIZE / 4
    ensures header + 1 < slots
  {
    if slots <= header + 1 {
      MulMono(slots, header + 1, size);
      NextSlot(header, size);
    }
  }
}
