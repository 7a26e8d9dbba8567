/** 4-level paging: the MMU's translation and access rights (sections 4.5 and 4.6 of the
    Intel 64 and IA-32 Architectures Software Developer's Manual, Volume 3A), the macros of
    kernel/memory/memory.h that reach the tables through the recursive PML4 slot,
    and what each table edit does to every translation.

    Physical frames are 512-entry tables: `Frames` maps a frame number and an
    entry index to a 64-bit entry.
  */
module PageTables {
  import opened Words
  import opened Layout

  datatype Option<+T> = None | Some(value: T)

  type Frames = map<(nat, nat), nat>

  const PML4_MASK: nat := 0xFFFF_FFFF_FFFF_F000
  const PDPT_MASK: nat := 0xFFFF_FFFF_FFE0_0000
  const PDE_MASK: nat := 0xFFFF_FFFF_C000_0000
  const PDE_ITEM_MASK: nat := 0x0FFF_FFFF_FFE0_0000
  const PG_EXIST: nat := 1
  const PG_RW: nat := 2
  const PG_USER: nat := 4
  const PG_2MB_BASE: nat := 0x80

  // ---- the hardware's view ----

  function Word(m: Frames, f: nat, i: nat): nat {
    if (f, i) in m then m[(f, i)] else 0
  }

  predicate Present(e: nat) {
    e % 2 == 1
  }

  predicate PageSizeBit(e: nat) {
    e / 0x80 % 2 == 1
  }

  /** Bit 1 of an entry: R/W. */
  predicate WriteBit(e: nat) {
    e / 2 % 2 == 1
  }

  /** Bit 2 of an entry: U/S. */
  predicate UserBit(e: nat) {
    e / 4 % 2 == 1
  }

  /** Bits 51..12 of an entry: the number of the frame it points to. */
  function FrameOf(e: nat): nat {
    e / 0x1000 % 0x100_0000_0000
  }

  /** Bits 51..21 of an entry: the base of a 2 MB page. */
  function Base2M(e: nat): nat {
    e / PAGE_SIZE % 0x8000_0000 * PAGE_SIZE
  }

  /** Bits 59..52 of an entry, which the MMU does not use as address bits. */
  function HighBits(e: nat): nat {
    e / 0x10_0000_0000_0000 % 0x100
  }

  /** An entry that maps a 2 MB page, with bits 59..52 clear. */
  predicate LeafOk(e: nat) {
    PageSizeBit(e) && HighBits(e) == 0
  }

  function I4(v: nat): (i: nat) ensures i < 512 { v / 0x80_0000_0000 % 512 }
  function I3(v: nat): (i: nat) ensures i < 512 { v / 0x4000_0000 % 512 }
  function I2(v: nat): (i: nat) ensures i < 512 { v / 0x20_0000 % 512 }
  function I1(v: nat): (i: nat) ensures i < 512 { v / 0x1000 % 512 }

  /** Bits 63..47 all equal. */
  predicate Canonical(v: nat) {
    v < 0x8000_0000_0000 || KERNEL_BASE <= v < WORD_LIMIT
  }

  /** What the MMU answers for a linear address: the physical address, and whether it may be
      written and accessed from user mode. */
  datatype Target = Target(address: nat, write: bool, user: bool)

  /** An access right is granted if every entry on the path has its bit set. */
  function Access(m: Frames, root: nat, v: nat): Option<Target> {
    if !Canonical(v) then None
    else Walk(m, root, I4(v), I3(v), I2(v), I1(v), v)
  }

  function Walk(m: Frames, root: nat, i4: nat, i3: nat, i2: nat, i1: nat, v: nat): Option<Target> {
    var e4 := Word(m, root, i4);
    if !Present(e4) then None else
    var e3 := Word(m, FrameOf(e4), i3);
    var (w3, u3) := (WriteBit(e4) && WriteBit(e3), UserBit(e4) && UserBit(e3));
    if !Present(e3) then None
    else if PageSizeBit(e3) then Some(Target(e3 / 0x4000_0000 % 0x40_0000 * 0x4000_0000 + v % 0x4000_0000, w3, u3)) else
    var e2 := Word(m, FrameOf(e3), i2);
    var (w2, u2) := (w3 && WriteBit(e2), u3 && UserBit(e2));
    if !Present(e2) then None
    else if PageSizeBit(e2) then Some(Target(Base2M(e2) + v % PAGE_SIZE, w2, u2)) else
    var e1 := Word(m, FrameOf(e2), i1);
    if !Present(e1) then None
    else Some(Target(FrameOf(e1) * PAGE_SIZE_4K + v % PAGE_SIZE_4K, w2 && WriteBit(e1), u2 && UserBit(e1)))
  }

  /** The physical address of a linear address, if it is mapped. */
  function Translate(m: Frames, root: nat, v: nat): Option<nat> {
    match Access(m, root, v)
    case None => None
    case Some(t) => Some(t.address)
  }

  // ---- the source's macros ----

  function GetPml4e(v: nat): nat {
    Or(Shl64(Shr(v, 39), 3), PML4_MASK)
  }

  function GetPdpte(v: nat): nat {
    Or(Shl64(Shr(v, 30), 3), PDPT_MASK)
  }

  function GetPde(v: nat): nat {
    Or(Shl64(Shr(v, 21), 3), PDE_MASK)
  }

  /** `*entry & PG_EXIST` */
  predicate Exists(e: nat) {
    And(e, PG_EXIST) != 0
  }

  /** `addr | PG_USER | PG_RW | PG_EXIST` */
  function TableEntry(addr: nat): nat {
    Or(Or(Or(addr, PG_USER), PG_RW), PG_EXIST)
  }

  /** `paddr | PG_2MB_BASE | PG_USER | PG_RW | PG_EXIST` */
  function PageEntry(paddr: nat): nat {
    Or(Or(Or(Or(paddr, PG_2MB_BASE), PG_USER), PG_RW), PG_EXIST)
  }

  /** `*pde & ~PG_EXIST` */
  function Cleared(e: nat): nat {
    And(e, Not64(PG_EXIST))
  }

  /** V2P_2MB, given the entry that `*GET_PDE(vAddr)` loads. */
  function V2P(e: nat, v: nat): nat {
    Or(And(e, PDE_ITEM_MASK), And(v, PAGE_SIZE - 1))
  }

  // ---- values of the macros ----

  lemma Shl3(a: nat)
    requires a * 8 < WORD_LIMIT
    ensures Shl64(a, 3) == a * 8
  {
    assert Pow2(3) == 8 by { Pow2Values(); }
    hide Pow2;
    DivUnique(a * 8, WORD_LIMIT, 0, a * 8);
  }

  /** The shape shared by the three macros: `(x << 3) | mask`. */
  lemma EntryAddress(x: nat, k: nat, limit: nat, field: nat)
    requires x < 0x10_0000_0000_0000 && 3 <= k <= 30
    requires Pow2(k) == limit == field * 8
    ensures limit <= WORD_LIMIT
    ensures Or(Shl64(x, 3), WORD_LIMIT - limit) == WORD_LIMIT - limit + x % field * 8
  {
    hide Or, Shl64, Pow2;
    Shl3(x);
    Pow2Is64();
    OrHighMask(x * 8, 64, k);
    EntryRemainder(x, limit, field);
  }

  lemma Pow2Is64()
    ensures Pow2(64) == WORD_LIMIT
  {
    Pow2Values();
  }

  lemma EntryRemainder(x: nat, limit: nat, field: nat)
    requires 0 < limit == field * 8
    ensures x * 8 % limit == x % field * 8
  {
    var q := x / field;
    MulAssoc(q, field, 8);
    DivUnique(x * 8, limit, q, x % field * 8);
  }

  /** The linear addresses of the entries for given indices. */
  function Pml4eAddr(i4: nat): nat { PML4_MASK + i4 * 8 }
  function PdpteAddr(i4: nat, i3: nat): nat { PDPT_MASK + (i4 * 512 + i3) * 8 }
  function PdeAddr(i4: nat, i3: nat, i2: nat): nat { PDE_MASK + ((i4 * 512 + i3) * 512 + i2) * 8 }

  lemma Shr39(v: nat) ensures Shr(v, 39) == v / 0x80_0000_0000 { Pow2Values(); }
  lemma Shr30(v: nat) ensures Shr(v, 30) == v / 0x4000_0000 { Pow2Values(); }
  lemma Shr21(v: nat) ensures Shr(v, 21) == v / 0x20_0000 { Pow2Values(); }
  lemma Pow2Spans()
    ensures Pow2(12) == 0x1000 && Pow2(21) == 0x20_0000 && Pow2(30) == 0x4000_0000
  {
    Pow2Values();
  }

  /** Dividing by 512 twice. */
  lemma DivBy512(v: nat, span: nat)
    requires span > 0
    ensures v / (span * 512) == v / span / 512
  {
    var q := v / span / 512;
    var r := v / span % 512 * span + v % span;
    MulAssoc(q, 512, span);
    assert v == q * (span * 512) + r;
    MulMono(v / span % 512, 511, span);
    DivUnique(v, span * 512, q, r);
  }

  lemma SplitBy512(x: nat, field: nat)
    requires field > 0
    ensures x % (field * 512) == x / 512 % field * 512 + x % 512
  {
    var q := x / 512 / field;
    MulAssoc(q, field, 512);
    MulMono(x / 512 % field, field - 1, 512);
    DivUnique(x, field * 512, q, x / 512 % field * 512 + x % 512);
  }

  lemma IndexSplit(v: nat)
    ensures v / 0x4000_0000 % 0x4_0000 == I4(v) * 512 + I3(v)
    ensures v / 0x20_0000 % 0x800_0000 == (I4(v) * 512 + I3(v)) * 512 + I2(v)
  {
    DivBy512(v, 0x20_0000);
    DivBy512(v, 0x4000_0000);
    SplitBy512(v / 0x4000_0000, 512);
    SplitBy512(v / 0x20_0000, 0x4_0000);
  }

  lemma MacroAddresses(v: nat)
    requires v < WORD_LIMIT
    ensures GetPml4e(v) == Pml4eAddr(I4(v))
    ensures GetPdpte(v) == PdpteAddr(I4(v), I3(v))
    ensures GetPde(v) == PdeAddr(I4(v), I3(v), I2(v))
  {
    hide Or, Shl64, Shr, Pow2;
    Shr39(v);
    Shr30(v);
    Shr21(v);
    Pow2Spans();
    EntryAddress(v / 0x80_0000_0000, 12, 0x1000, 0x200);
    EntryAddress(v / 0x4000_0000, 21, 0x20_0000, 0x4_0000);
    EntryAddress(v / 0x20_0000, 30, 0x4000_0000, 0x800_0000);
    IndexSplit(v);
    hide I4, I3, I2;
  }

  /** The indices of an address given as its four table indices and an offset. */
  lemma AddressIndices(a: nat, n4: nat, n3: nat, n2: nat, n1: nat, low: nat)
    requires n3 < 512 && n2 < 512 && n1 < 512 && low < 0x1000
    requires a == (((n4 * 512 + n3) * 512 + n2) * 512 + n1) * 0x1000 + low
    ensures I4(a) == n4 % 512 && I3(a) == n3 && I2(a) == n2 && I1(a) == n1 && a % 0x1000 == low
  {
    var x3 := n4 * 512 + n3;
    var x2 := x3 * 512 + n2;
    DivUnique(a, 0x1000, x2 * 512 + n1, low);
    DivBy512(a, 0x1000);
    DivUnique(x2 * 512 + n1, 512, x2, n1);
    DivBy512(a, 0x20_0000);
    DivUnique(x2, 512, x3, n2);
    DivBy512(a, 0x4000_0000);
    DivUnique(x3, 512, n4, n3);
  }

  /** The indices of an entry's own linear address: 511s, then the indices it serves. */
  lemma Pml4eIndices(i4: nat)
    requires i4 < 512
    ensures var a := Pml4eAddr(i4);
            Canonical(a) && I4(a) == I3(a) == I2(a) == I1(a) == 511 && a % 0x1000 == i4 * 8
  {
    AddressIndices(Pml4eAddr(i4), 0x1FF_FFFF, 511, 511, 511, i4 * 8);
  }

  lemma PdpteIndices(i4: nat, i3: nat)
    requires i4 < 512 && i3 < 512
    ensures var a := PdpteAddr(i4, i3);
            Canonical(a) && I4(a) == I3(a) == I2(a) == 511 && I1(a) == i4 && a % 0x1000 == i3 * 8
  {
    AddressIndices(PdpteAddr(i4, i3), 0x1FF_FFFF, 511, 511, i4, i3 * 8);
  }

  lemma PdeIndices(i4: nat, i3: nat, i2: nat)
    requires i4 < 512 && i3 < 512 && i2 < 512
    ensures var a := PdeAddr(i4, i3, i2);
            Canonical(a) && I4(a) == I3(a) == 511 && I2(a) == i4 && I1(a) == i3 && a % 0x1000 == i2 * 8
  {
    AddressIndices(PdeAddr(i4, i3, i2), 0x1FF_FFFF, 511, i4, i3, i2 * 8);
  }

  /** The start of the table that holds an entry: `entry & 0xfffffffffffff000`. */
  lemma TableStart(a: nat)
    requires a < WORD_LIMIT
    ensures And(a, 0xFFFF_FFFF_FFFF_F000) == a - a % 0x1000
  {
    Pow2Spans();
    AndNotMask(a, 12);
  }

  lemma ExistsIsPresent(e: nat)
    ensures Exists(e) <==> Present(e)
  {
    AndField(e, 1, 0);
  }

  /** The flags of an entry that lets everything pass that the levels below it allow. */
  predicate OpenTable(e: nat) {
    Present(e) && !PageSizeBit(e) && WriteBit(e) && UserBit(e)
  }

  lemma TableEntryValue(addr: nat)
    requires addr % PAGE_SIZE_4K == 0 && addr < PHYS_LIMIT
    ensures var e := TableEntry(addr);
            e == addr + 7 && OpenTable(e) && FrameOf(e) == addr / PAGE_SIZE_4K
  {
    var q := addr / PAGE_SIZE_4K;
    DivUnique(addr, 8, q * 512, 0);
    LowFlags(addr);
    assert TableEntry(addr) == q * 0x1000 + 7;
    hide TableEntry, Or;
    TableEntryFields(q);
  }

  lemma TableEntryFields(q: nat)
    requires q < 0x100_0000_0000
    ensures var e := q * 0x1000 + 7;
            OpenTable(e) && FrameOf(e) == q
  {
    var e := q * 0x1000 + 7;
    LowBits(q * 0x200, 7);
    DivUnique(e, 0x80, q * 0x20, 7);
    DivUnique(q * 0x20, 2, q * 0x10, 0);
    DivUnique(e, 0x1000, q, 7);
    DivUnique(q, 0x100_0000_0000, 0, q);
  }

  /** The three lowest bits of an entry. */
  lemma LowBits(q: nat, low: nat)
    requires low < 8
    ensures var e := q * 8 + low;
            (Present(e) <==> low % 2 == 1) && (WriteBit(e) <==> low / 2 % 2 == 1) && (UserBit(e) <==> low / 4 == 1)
  {
    var e := q * 8 + low;
    DivUnique(e, 2, q * 4 + low / 2, low % 2);
    DivUnique(q * 4 + low / 2, 2, q * 2 + low / 4, low / 2 % 2);
    DivUnique(e, 4, q * 2 + low / 4, low % 4);
    DivUnique(q * 2 + low / 4, 2, q, low / 4);
  }

  lemma LowFlags(addr: nat)
    requires addr % 8 == 0
    ensures Or(Or(Or(addr, PG_USER), PG_RW), PG_EXIST) == addr + 7
  {
    hide Or, Pow2;
    Pow2Small();
    DivUnique(addr + 4, 4, addr / 8 * 2 + 1, 0);
    DivUnique(addr + 6, 2, addr / 8 * 4 + 3, 0);
    OrAligned(addr, 4, 3);
    OrAligned(addr + 4, 2, 2);
    OrAligned(addr + 6, 1, 1);
  }

  lemma Pow2Small()
    ensures Pow2(1) == 2 && Pow2(2) == 4 && Pow2(3) == 8 && Pow2(8) == 256
  {}

  lemma PageEntryValue(paddr: nat)
    requires paddr % PAGE_SIZE == 0 && paddr < PHYS_LIMIT
    ensures var e := PageEntry(paddr);
            e == paddr + 0x87 && Present(e) && LeafOk(e) && Base2M(e) == paddr && WriteBit(e) && UserBit(e)
  {
    hide PageEntry, Present, LeafOk, Base2M, WriteBit, UserBit;
    PageEntrySum(paddr);
    PageEntryFields(paddr / PAGE_SIZE);
  }

  lemma PageEntrySum(paddr: nat)
    requires paddr % PAGE_SIZE == 0
    ensures PageEntry(paddr) == paddr + 0x87
  {
    hide Or, Pow2;
    Pow2Small();
    assert paddr % 256 == 0 && (paddr + 0x80) % 8 == 0;
    OrAligned(paddr, 0x80, 8);
    LowFlags(paddr + 0x80);
  }

  lemma PageEntryFields(q: nat)
    requires q < 0x8000_0000
    ensures var e := q * PAGE_SIZE + 0x87;
            Present(e) && LeafOk(e) && Base2M(e) == q * PAGE_SIZE && WriteBit(e) && UserBit(e)
  {
    var e := q * PAGE_SIZE + 0x87;
    assert HighBits(e) == 0 by { DivUnique(e, 0x10_0000_0000_0000, 0, e); }
    LowBits(q * 0x4_0000 + 0x10, 7);
    hide WriteBit, UserBit, Present;
    assert PageSizeBit(e) by {
      DivUnique(e, 0x80, q * 0x4000 + 1, 7);
      DivUnique(q * 0x4000 + 1, 2, q * 0x2000, 1);
    }
    assert Base2M(e) == q * PAGE_SIZE by {
      DivUnique(e, PAGE_SIZE, q, 0x87);
      DivUnique(q, 0x8000_0000, 0, q);
    }
  }

  /** Only the present bit goes. */
  lemma ClearedValue(e: nat)
    ensures !Present(Cleared(e))
    ensures e < WORD_LIMIT ==> Cleared(e) == e - e % 2
  {
    hide And;
    Pow2Small();
    Pow2Is64();
    AndField(e, 64, 1);
    EvenDifference(e);
    if e < WORD_LIMIT {
      Small64(e);
    }
  }

  lemma EvenDifference(e: nat)
    ensures (e % WORD_LIMIT - e % 2) % 2 == 0
  {
    DivUnique(e, 2, e / WORD_LIMIT * (WORD_LIMIT / 2) + e % WORD_LIMIT / 2, e % WORD_LIMIT % 2);
  }

  /** V2P_2MB keeps bits 59..21 of the entry, but a physical address has only 52 bits. */
  lemma V2PValue(e: nat, v: nat)
    ensures V2P(e, v) == Base2M(e) + HighBits(e) * PHYS_LIMIT + v % PAGE_SIZE
  {
    hide Or, And;
    Pow2Fields();
    AndField(e, 60, 21);
    AndField(v, 21, 0);
    PageField(e);
    HighField(e);
    hide Base2M, HighBits;
    ModOfSum(Base2M(e), HighBits(e) * 0x8000_0000, 0x20_0000);
    OrAligned(Base2M(e) + HighBits(e) * PHYS_LIMIT, v % PAGE_SIZE, 21);
  }

  /** So V2P_2MB is the MMU's translation exactly when those bits are clear. */
  lemma V2PIsTranslation(e: nat, v: nat)
    ensures V2P(e, v) == Base2M(e) + v % PAGE_SIZE <==> HighBits(e) == 0
  {
    V2PValue(e, v);
    hide V2P, Base2M, HighBits;
  }

  /** An entry for physical page 0 with the ignored bit 52 set: V2P_2MB answers 2^52. */
  lemma V2PHighBit()
    ensures var e := 0x10_0000_0000_0087;
            Present(e) && PageSizeBit(e) && Base2M(e) == 0 && V2P(e, 0) == PHYS_LIMIT
  {
    hide V2P;
    V2PValue(0x10_0000_0000_0087, 0);
    assert HighBits(0x10_0000_0000_0087) == 1 && Base2M(0x10_0000_0000_0087) == 0;
    hide HighBits, Base2M;
  }

  lemma Pow2Fields()
    ensures Pow2(0) == 1 && Pow2(21) == PAGE_SIZE && Pow2(60) == 0x1000_0000_0000_0000
  {
    Pow2Values();
  }

  lemma PageField(e: nat)
    ensures e % PHYS_LIMIT - e % PAGE_SIZE == Base2M(e) && Base2M(e) % PAGE_SIZE == 0
  {
    var q := e / PAGE_SIZE;
    var q', r := q / 0x8000_0000, q % 0x8000_0000;
    DivUnique(e, PHYS_LIMIT, q', r * PAGE_SIZE + e % PAGE_SIZE);
    DivUnique(r * PAGE_SIZE, PAGE_SIZE, r, 0);
  }

  lemma HighField(e: nat)
    ensures e % 0x1000_0000_0000_0000 == HighBits(e) * PHYS_LIMIT + e % PHYS_LIMIT
  {
    var q := e / 0x10_0000_0000_0000;
    DivUnique(e, 0x1000_0000_0000_0000, q / 0x100, q % 0x100 * 0x10_0000_0000_0000 + e % 0x10_0000_0000_0000);
  }

  // ---- walking through the recursive slot ----

  /** PML4 entry 511 points back to the PML4 (boot/loader.asm:192). */
  predicate RecursiveSlot(m: Frames, root: nat) {
    var e := Word(m, root, 511);
    Present(e) && !PageSizeBit(e) && FrameOf(e) == root
  }

  function E4(m: Frames, root: nat, i4: nat): nat {
    Word(m, root, i4)
  }

  function E3(m: Frames, root: nat, i4: nat, i3: nat): nat {
    Word(m, FrameOf(E4(m, root, i4)), i3)
  }

  function E2(m: Frames, root: nat, i4: nat, i3: nat, i2: nat): nat {
    Word(m, FrameOf(E3(m, root, i4, i3)), i2)
  }

  predicate HasPdpt(m: Frames, root: nat, i4: nat) {
    Present(E4(m, root, i4)) && !PageSizeBit(E4(m, root, i4))
  }

  predicate HasPd(m: Frames, root: nat, i4: nat, i3: nat) {
    HasPdpt(m, root, i4) && Present(E3(m, root, i4, i3)) && !PageSizeBit(E3(m, root, i4, i3))
  }

  lemma WalkPml4e(m: Frames, root: nat, i4: nat)
    requires i4 < 512 && RecursiveSlot(m, root)
    ensures Translate(m, root, Pml4eAddr(i4)) == Some(root * 0x1000 + i4 * 8)
  {
    hide Canonical, I4, I3, I2, I1, Present, PageSizeBit, FrameOf, Pml4eAddr, WriteBit, UserBit;
    Pml4eIndices(i4);
  }

  lemma WalkPdpte(m: Frames, root: nat, i4: nat, i3: nat)
    requires i4 < 512 && i3 < 512 && RecursiveSlot(m, root) && HasPdpt(m, root, i4)
    ensures Translate(m, root, PdpteAddr(i4, i3)) == Some(FrameOf(E4(m, root, i4)) * 0x1000 + i3 * 8)
  {
    hide Canonical, I4, I3, I2, I1, Present, PageSizeBit, FrameOf, PdpteAddr, WriteBit, UserBit;
    PdpteIndices(i4, i3);
  }

  lemma WalkPde(m: Frames, root: nat, i4: nat, i3: nat, i2: nat)
    requires i4 < 512 && i3 < 512 && i2 < 512 && RecursiveSlot(m, root) && HasPd(m, root, i4, i3)
    ensures Translate(m, root, PdeAddr(i4, i3, i2)) == Some(FrameOf(E3(m, root, i4, i3)) * 0x1000 + i2 * 8)
  {
    hide Canonical, I4, I3, I2, I1, Present, PageSizeBit, FrameOf, PdeAddr, WriteBit, UserBit;
    PdeIndices(i4, i3, i2);
  }

  /** GET_PML4E, GET_PDPTE and GET_PDE reach PML4[i4], PDPT[i3] and PD[i2]. */
  lemma RecursiveWalk(m: Frames, root: nat, v: nat)
    requires v < WORD_LIMIT && RecursiveSlot(m, root)
    ensures Translate(m, root, GetPml4e(v)) == Some(root * 0x1000 + I4(v) * 8)
    ensures HasPdpt(m, root, I4(v)) ==>
              Translate(m, root, GetPdpte(v)) == Some(FrameOf(E4(m, root, I4(v))) * 0x1000 + I3(v) * 8)
    ensures HasPd(m, root, I4(v), I3(v)) ==>
              Translate(m, root, GetPde(v)) == Some(FrameOf(E3(m, root, I4(v), I3(v))) * 0x1000 + I2(v) * 8)
  {
    hide RecursiveSlot, HasPdpt, HasPd, I4, I3, I2, Translate, Access, GetPml4e, GetPdpte, GetPde;
    MacroAddresses(v);
    WalkPml4e(m, root, I4(v));
    if HasPdpt(m, root, I4(v)) {
      WalkPdpte(m, root, I4(v), I3(v));
    }
    if HasPd(m, root, I4(v), I3(v)) {
      WalkPde(m, root, I4(v), I3(v), I2(v));
    }
  }
}
