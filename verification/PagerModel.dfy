/** The state of the page allocator as a value, and its invariant.

    `Geo` holds what init_memory fixes once; `View` holds what changes: three of
    the bitmaps, the page tables, the role of each table frame, and `phys`, the
    ghost map from allocated virtual page indices to core page indices.
  */
module PagerModel {
  import opened Words
  import opened Layout
  import opened Bitmaps
  import opened PageTables
  import opened TableEdits

  datatype Geo = Geo(root: nat, userStart: nat, coreStart: nat, fourStart: nat, virtStart: nat,
                     pages: nat, frames: nat)

  datatype View = View(virt: seq<bool>, core: seq<bool>, four: seq<bool>,
                       mem: Frames, role: Roles, phys: map<nat, nat>)

  function VPage(g: Geo, i: nat): nat { g.virtStart + i * PAGE_SIZE }
  function PPage(g: Geo, j: nat): nat { g.coreStart + j * PAGE_SIZE }
  function Frame(g: Geo, k: nat): nat { g.fourStart / PAGE_SIZE_4K + k }

  predicate InVirt(g: Geo, v: nat) {
    g.virtStart <= v < g.virtStart + g.pages * PAGE_SIZE
  }

  function PageIdx(g: Geo, v: nat): nat
    requires g.virtStart <= v
  {
    (v - g.virtStart) / PAGE_SIZE
  }

  /** What the pool arithmetic guarantees (Layout.PoolsPartitionMemory and
      Layout.EnoughForPageTables). */
  ghost predicate GeoOk(g: Geo) {
    g.virtStart % PAGE_SIZE == 0 && KERNEL_BASE <= g.virtStart
    && g.virtStart + g.pages * PAGE_SIZE <= KERNEL_BASE + 0x80_0000_0000
    && g.coreStart % PAGE_SIZE == 0 && PAGE_SIZE <= g.userStart <= g.coreStart
    && g.coreStart + g.pages * PAGE_SIZE <= g.fourStart
    && g.fourStart % PAGE_SIZE_4K == 0 && g.fourStart + g.frames * PAGE_SIZE_4K <= PHYS_LIMIT
    && (0 < g.pages ==> g.pages / 512 + 2 <= g.frames)
  }

  function FirstGb(g: Geo): nat { I3(g.virtStart) }
  function LastGb(g: Geo): nat
    requires 0 < g.pages
  {
    I3(VPage(g, g.pages - 1))
  }

  // ---- page tables and the 4 KB pool ----

  /** A table frame lies below the kernel image (the boot tables) or is taken from the
      4 KB pool. */
  predicate TableFrame(g: Geo, four: seq<bool>, f: nat) {
    f < KERNEL_ADDR / PAGE_SIZE_4K
    || (Frame(g, 0) <= f && f - Frame(g, 0) < |four| && four[f - Frame(g, 0)])
  }

  ghost predicate TablesOk(g: Geo, s: View) {
    |s.four| == g.frames
    && WellFormed(s.mem, g.root, s.role)
    && forall f :: f in s.role ==> TableFrame(g, s.four, f)
  }

  /** Frame k of the 4 KB pool is the page directory of one gigabyte of the virtual pool. */
  ghost predicate Serves(g: Geo, mem: Frames, role: Roles, k: nat) {
    var f := Frame(g, k);
    f in role && role[f].Pd? && role[f].slot == 0 && role[f].i3 < 512
    && 0 < g.pages && FirstGb(g) <= role[f].i3 <= LastGb(g)
    && Present(E4(mem, g.root, 256)) && Present(E3(mem, g.root, 256, role[f].i3))
    && FrameOf(E3(mem, g.root, 256, role[f].i3)) == f
  }

  ghost predicate Capacity(g: Geo, s: View) {
    forall k: nat :: k < |s.four| && s.four[k] ==> Serves(g, s.mem, s.role, k)
  }

  // ---- the mapping of virtual to physical pages ----

  ghost predicate Injective(m: map<nat, nat>) {
    forall i, j :: i in m && j in m && m[i] == m[j] ==> i == j
  }

  /** Every address of a mapped virtual page translates into its core page, with every
      access right. */
  ghost predicate Translated(g: Geo, mem: Frames, phys: map<nat, nat>) {
    forall v: nat :: InVirt(g, v) && PageIdx(g, v) in phys ==>
      Access(mem, g.root, v) == Some(Target(PPage(g, phys[PageIdx(g, v)]) + v % PAGE_SIZE, true, true))
  }

  /** `phys` is a bijection from the mapped pages to the used core pages. */
  ghost predicate Mapping(g: Geo, s: View, keys: set<nat>) {
    |s.virt| == g.pages && |s.core| == g.pages
    && s.phys.Keys == keys && s.phys.Values == Ones(s.core) && Injective(s.phys)
    && (forall i :: i in keys ==> i < g.pages)
    && Translated(g, s.mem, s.phys)
  }

  /** The invariant of the page allocator. */
  ghost predicate Inv(g: Geo, s: View) {
    GeoOk(g) && TablesOk(g, s) && Capacity(g, s) && Mapping(g, s, Ones(s.virt))
  }

  // ---- addresses of the virtual pool ----

  /** The indices of an address in PML4 slot 256. */
  lemma KernelOffset(v: nat)
    requires KERNEL_BASE <= v < KERNEL_BASE + 0x80_0000_0000
    ensures Canonical(v) && I4(v) == 256
    ensures I3(v) == (v - KERNEL_BASE) / 0x4000_0000
    ensures I3(v) * 512 + I2(v) == (v - KERNEL_BASE) / PAGE_SIZE
  {
    var x := v - KERNEL_BASE;
    DivUnique(v, 0x80_0000_0000, 0x1FF_FF00, x);
    DivUnique(v, 0x4000_0000, 0x1FF_FF00 * 512 + x / 0x4000_0000, x % 0x4000_0000);
    DivUnique(v, 0x20_0000, 0x1FF_FF00 * 0x4_0000 + x / 0x20_0000, x % 0x20_0000);
    DivBy512(x, 0x20_0000);
  }

  lemma VirtOffset(g: Geo, v: nat)
    requires GeoOk(g) && InVirt(g, v)
    ensures KERNEL_BASE <= v < WORD_LIMIT && v - KERNEL_BASE < 0x80_0000_0000
    ensures Canonical(v) && I4(v) == 256
    ensures I3(v) == (v - KERNEL_BASE) / 0x4000_0000
    ensures I3(v) * 512 + I2(v) == (v - KERNEL_BASE) / PAGE_SIZE
  {
    KernelOffset(v);
  }

  lemma VirtPageIdx(g: Geo, v: nat)
    requires GeoOk(g) && InVirt(g, v)
    ensures (v - KERNEL_BASE) / PAGE_SIZE == PageIdx(g, v) + (g.virtStart - KERNEL_BASE) / PAGE_SIZE
    ensures PageIdx(g, v) < g.pages
    ensures v == VPage(g, PageIdx(g, v)) + v % PAGE_SIZE
  {
    var s := (g.virtStart - KERNEL_BASE) / PAGE_SIZE;
    ModOfSum(g.virtStart - KERNEL_BASE, 0x7FF_FFC0_0000 / 2, PAGE_SIZE);
    ModOfSum(v - g.virtStart, s, PAGE_SIZE);
    ModOfSum(v - g.virtStart, g.virtStart / PAGE_SIZE, PAGE_SIZE);
  }

  lemma VPageAddress(g: Geo, i: nat)
    requires GeoOk(g) && i < g.pages
    ensures InVirt(g, VPage(g, i)) && PageIdx(g, VPage(g, i)) == i && VPage(g, i) % PAGE_SIZE == 0
  {
    MulMono(i + 1, g.pages, PAGE_SIZE);
    ModOfSum(g.virtStart, i, PAGE_SIZE);
    ModOfSum(0, i, PAGE_SIZE);
  }

  lemma VirtIsData(g: Geo, v: nat)
    requires GeoOk(g) && InVirt(g, v)
    ensures DataAddress(v) && v < WORD_LIMIT && I4(v) == 256
    ensures FirstGb(g) <= I3(v) <= LastGb(g)
  {
    VirtOffset(g, v);
    VPageAddress(g, 0);
    VirtOffset(g, VPage(g, 0));
    VPageAddress(g, g.pages - 1);
    VirtOffset(g, VPage(g, g.pages - 1));
    VirtPageIdx(g, v);
    VirtPageIdx(g, VPage(g, g.pages - 1));
    hide Canonical, I3, I2, I4, PageIdx;
    var last := VPage(g, g.pages - 1);
    DivBy512(v - KERNEL_BASE, PAGE_SIZE);
    DivBy512(last - KERNEL_BASE, PAGE_SIZE);
  }

  /** Within the virtual pool, sharing a page-directory entry is lying in the same page. */
  lemma VirtSamePage(g: Geo, v: nat, w: nat)
    requires GeoOk(g) && InVirt(g, v) && InVirt(g, w)
    ensures SamePage(v, w) <==> PageIdx(g, v) == PageIdx(g, w)
  {
    VirtOffset(g, v);
    VirtOffset(g, w);
    VirtPageIdx(g, v);
    VirtPageIdx(g, w);
    hide Canonical, I3, I2, I4, PageIdx;
  }

  lemma PPageAddress(g: Geo, j: nat)
    requires GeoOk(g) && j < g.pages
    ensures PPage(g, j) % PAGE_SIZE == 0 && PPage(g, j) + PAGE_SIZE <= g.fourStart
    ensures g.coreStart <= PPage(g, j) < PHYS_LIMIT
  {
    MulMono(j + 1, g.pages, PAGE_SIZE);
    ModOfSum(g.coreStart, j, PAGE_SIZE);
  }

  lemma FrameAddress(g: Geo, k: nat)
    requires GeoOk(g) && k < g.frames
    ensures var a := g.fourStart + k * PAGE_SIZE_4K;
            a % PAGE_SIZE_4K == 0 && a < PHYS_LIMIT && a / PAGE_SIZE_4K == Frame(g, k)
            && g.userStart <= a && g.userStart <= Frame(g, k) * PAGE_SIZE_4K
  {
    MulMono(k + 1, g.frames, PAGE_SIZE_4K);
    ModOfSum(g.fourStart, k, PAGE_SIZE_4K);
  }

  // ---- counting ----

  /** A map that is injective on a set does not shrink it. */
  lemma {:induction false} ImageSize(ks: set<nat>, image: map<nat, nat>)
    requires ks <= image.Keys
    requires forall i, j :: i in ks && j in ks && image[i] == image[j] ==> i == j
    ensures |set k | k in ks :: image[k]| == |ks|
  {
    if ks != {} {
      var x :| x in ks;
      ImageSize(ks - {x}, image);
      assert (set k | k in ks :: image[k]) == (set k | k in ks - {x} :: image[k]) + {image[x]};
    }
  }

  lemma PhysSize(phys: map<nat, nat>)
    requires Injective(phys)
    ensures |phys.Keys| == |phys.Values|
  {
    ImageSize(phys.Keys, phys);
    assert phys.Values == set k | k in phys.Keys :: phys[k];
  }

  /** While a reserved virtual page is still unmapped, a core page is free: the
      two bitmaps have equal length and the mapping is a bijection. */
  lemma RoomForCore(g: Geo, s: View, keys: set<nat>, i: nat)
    requires Mapping(g, s, keys) && keys <= Ones(s.virt) && i in Ones(s.virt) && i !in keys
    ensures HasRun(s.core, 1)
  {
    PhysSize(s.phys);
    SubsetSize(keys, Ones(s.virt) - {i});
    OnesBound(s.virt);
    OnesBound(s.core);
  }

  /** Distinct labels in a range that misses one number are fewer than the range. */
  lemma LabelsLeaveRoom(ks: set<nat>, names: map<nat, nat>, first: nat, n: nat, hole: nat)
    requires ks <= names.Keys && first <= hole < first + n
    requires forall i, j :: i in ks && j in ks && names[i] == names[j] ==> i == j
    requires forall k :: k in ks ==> first <= names[k] < first + n && names[k] != hole
    ensures |ks| < n
  {
    var image := set k | k in ks :: names[k];
    ImageSize(ks, names);
    SubsetSize(image, Range(first, n) - {hole});
  }

  /** The gigabyte that each used 4 KB frame serves. */
  ghost function Labels(g: Geo, s: View): map<nat, nat>
    requires Capacity(g, s)
  {
    map k: nat | k in Ones(s.four) :: ServedGb(g, s, k)
  }

  ghost function ServedGb(g: Geo, s: View, k: nat): (gb: nat)
    requires Capacity(g, s) && k in Ones(s.four)
    ensures 0 < g.pages && FirstGb(g) <= gb <= LastGb(g)
    ensures Present(E3(s.mem, g.root, 256, gb))
    ensures FrameOf(E3(s.mem, g.root, 256, gb)) == Frame(g, k)
  {
    assert Serves(g, s.mem, s.role, k);
    s.role[Frame(g, k)].i3
  }

  /** A gigabyte of the virtual pool without a page directory leaves a 4 KB frame
      free: page_table_add never exhausts the 4 KB pool. */
  lemma RoomForTable(g: Geo, s: View, v: nat)
    requires GeoOk(g) && |s.four| == g.frames && Capacity(g, s) && InVirt(g, v)
    requires !Present(E3(s.mem, g.root, 256, I3(v)))
    ensures HasRun(s.four, 1)
  {
    VirtIsData(g, v);
    GbSpan(g);
    OnesBound(s.four);
    hide I3, I4, DataAddress, Capacity, GeoOk, Present, FrameOf, FirstGb, LastGb;
    var names := Labels(g, s);
    forall k | k in Ones(s.four) ensures names[k] == ServedGb(g, s, k) {}
    hide Labels, ServedGb, HasRun;
    LabelsLeaveRoom(Ones(s.four), names, FirstGb(g), LastGb(g) - FirstGb(g) + 1, I3(v));
  }

  lemma GbSpan(g: Geo)
    requires GeoOk(g) && 0 < g.pages
    ensures FirstGb(g) <= LastGb(g)
    ensures LastGb(g) - FirstGb(g) + 1 <= g.frames
  {
    var a, b := VPage(g, 0), VPage(g, g.pages - 1);
    VPageAddress(g, 0);
    VPageAddress(g, g.pages - 1);
    VirtOffset(g, a);
    VirtOffset(g, b);
    VirtPageIdx(g, b);
    hide Canonical, I3, I2, I4, PageIdx;
    DivBy512(a - KERNEL_BASE, PAGE_SIZE);
    DivBy512(b - KERNEL_BASE, PAGE_SIZE);
  }

  // ---- edits of the tables seen from the pools ----

  /** The number of tables missing on the path of an address. */
  function MissingTables(m: Frames, root: nat, v: nat): nat {
    if !Present(E4(m, root, I4(v))) then 2
    else if !Present(E3(m, root, I4(v), I3(v))) then 1 else 0
  }

  /** A free frame of the 4 KB pool is not a table. */
  lemma FreeFrameIsNoTable(g: Geo, s: View, k: nat)
    requires GeoOk(g) && TablesOk(g, s) && FreeRun(s.four, k, 1)
    ensures Frame(g, k) !in s.role
  {
    FrameAddress(g, k);
    hide WellFormed;
    assert !TableFrame(g, s.four, Frame(g, k));
  }

  lemma TablesGrow(g: Geo, s: View, s': View, k: nat, r: Role)
    requires GeoOk(g) && TablesOk(g, s) && FreeRun(s.four, k, 1)
    requires s'.four == SetRange(s.four, k, 1, true)
    requires s'.role == s.role[Frame(g, k) := r] && WellFormed(s'.mem, g.root, s'.role)
    ensures TablesOk(g, s')
  {
    hide WellFormed;
    forall f | f in s'.role ensures TableFrame(g, s'.four, f) {
      if f != Frame(g, k) {
        assert TableFrame(g, s.four, f);
      }
    }
  }

  lemma LinkPdptKeeps(g: Geo, s: View, s': View, i4: nat, e: nat, k: nat)
    requires GeoOk(g) && TablesOk(g, s) && i4 < 511 && !Present(E4(s.mem, g.root, i4))
    requires FreeRun(s.four, k, 1) && s'.four == SetRange(s.four, k, 1, true)
    requires OpenTable(e) && FrameOf(e) == Frame(g, k)
    requires Linked(s.mem, s'.mem, g.root, i4, e, Frame(g, k))
    requires s'.role == s.role[Frame(g, k) := Pdpt(Alias(i4))]
    ensures TablesOk(g, s')
    ensures Frame(g, k) != g.root
    ensures E4(s'.mem, g.root, i4) == e
    ensures forall j: nat :: j < 512 ==> E3(s'.mem, g.root, i4, j) == 0
    ensures SameTranslation(g.root, s.mem, s'.mem) && WritesTables(s, s')
  {
    hide Present, PageSizeBit, FrameOf, DataAddress, Access, FreeRun;
    FreeFrameIsNoTable(g, s, k);
    LinkPdpt(s.mem, s'.mem, g.root, s.role, i4, e, Frame(g, k));
    TablesGrow(g, s, s', k, Pdpt(Alias(i4)));
    assert g.root in s.role;
    forall w: nat | DataAddress(w) ensures Access(s'.mem, g.root, w) == Access(s.mem, g.root, w) {
      LinkPdptTranslation(s.mem, s'.mem, g.root, s.role, i4, e, Frame(g, k), w);
    }
  }

  lemma LinkPdKeeps(g: Geo, s: View, s': View, i4: nat, i3: nat, e: nat, k: nat)
    requires GeoOk(g) && TablesOk(g, s) && i4 < 511 && i3 < 512
    requires Present(E4(s.mem, g.root, i4)) && !Present(E3(s.mem, g.root, i4, i3))
    requires FreeRun(s.four, k, 1) && s'.four == SetRange(s.four, k, 1, true)
    requires OpenTable(e) && FrameOf(e) == Frame(g, k)
    requires Linked(s.mem, s'.mem, FrameOf(E4(s.mem, g.root, i4)), i3, e, Frame(g, k))
    requires s'.role == s.role[Frame(g, k) := Pd(Alias(i4), i3)]
    ensures TablesOk(g, s')
    ensures Frame(g, k) != g.root && Frame(g, k) != FrameOf(E4(s.mem, g.root, i4))
    ensures E4(s'.mem, g.root, i4) == E4(s.mem, g.root, i4) && E3(s'.mem, g.root, i4, i3) == e
    ensures SameTranslation(g.root, s.mem, s'.mem) && WritesTables(s, s')
  {
    hide Present, PageSizeBit, FrameOf, DataAddress, Access, FreeRun;
    FreeFrameIsNoTable(g, s, k);
    Path(s.mem, g.root, s.role, i4, i3);
    LinkPd(s.mem, s'.mem, g.root, s.role, i4, i3, e, Frame(g, k));
    TablesGrow(g, s, s', k, Pd(Alias(i4), i3));
    forall w: nat | DataAddress(w) ensures Access(s'.mem, g.root, w) == Access(s.mem, g.root, w) {
      LinkPdTranslation(s.mem, s'.mem, g.root, s.role, i4, i3, e, Frame(g, k), w);
    }
  }

  /** A page directory linked for an address of the virtual pool serves its gigabyte. */
  lemma LinkPdCapacity(g: Geo, s: View, s': View, v: nat, e: nat, k: nat)
    requires GeoOk(g) && TablesOk(g, s) && Capacity(g, s) && InVirt(g, v)
    requires Present(E4(s.mem, g.root, 256)) && !Present(E3(s.mem, g.root, 256, I3(v)))
    requires FreeRun(s.four, k, 1) && s'.four == SetRange(s.four, k, 1, true)
    requires OpenTable(e) && FrameOf(e) == Frame(g, k)
    requires Linked(s.mem, s'.mem, FrameOf(E4(s.mem, g.root, 256)), I3(v), e, Frame(g, k))
    requires s'.role == s.role[Frame(g, k) := Pd(0, I3(v))]
    ensures Capacity(g, s')
  {
    VirtIsData(g, v);
    LinkPdKeeps(g, s, s', 256, I3(v), e, k);
    hide Present, PageSizeBit, FrameOf, DataAddress, Access, I3, I4, FirstGb, LastGb, TablesOk, GeoOk, Serves,
         Linked, SameTranslation, FreeRun;
    forall n: nat | n < |s'.four| && s'.four[n] ensures Serves(g, s'.mem, s'.role, n) {
      if n == k {
        ServesNew(g, s'.mem, s'.role, v, e, k);
      } else {
        ServesStill(g, s.mem, s'.mem, s.role, I3(v), e, k, n);
      }
    }
  }

  lemma ServesNew(g: Geo, m: Frames, role: Roles, v: nat, e: nat, k: nat)
    requires 0 < g.pages && FirstGb(g) <= I3(v) <= LastGb(g)
    requires Frame(g, k) in role && role[Frame(g, k)] == Pd(0, I3(v))
    requires Present(E4(m, g.root, 256)) && E3(m, g.root, 256, I3(v)) == e
    requires Present(e) && FrameOf(e) == Frame(g, k)
    ensures Serves(g, m, role, k)
  {}

  lemma ServesStill(g: Geo, m: Frames, m': Frames, role: Roles, i3: nat, e: nat, k: nat, n: nat)
    requires Serves(g, m, role, n) && n != k
    requires Linked(m, m', FrameOf(E4(m, g.root, 256)), i3, e, Frame(g, k))
    requires !Present(E3(m, g.root, 256, i3))
    requires Frame(g, k) != g.root && Frame(g, k) != FrameOf(E4(m, g.root, 256))
    requires E4(m', g.root, 256) == E4(m, g.root, 256)
    ensures Serves(g, m', role[Frame(g, k) := Pd(0, i3)], n)
  {
    hide Present, FrameOf, FirstGb, LastGb;
  }

  lemma StorePdeKeeps(g: Geo, s: View, s': View, v: nat, e: nat)
    requires TablesOk(g, s) && DataAddress(v)
    requires Present(E4(s.mem, g.root, I4(v))) && Present(E3(s.mem, g.root, I4(v), I3(v)))
    requires Stored(s.mem, s'.mem, FrameOf(E3(s.mem, g.root, I4(v), I3(v))), I2(v), e)
    requires Present(e) ==> LeafOk(e)
    requires s'.four == s.four && s'.role == s.role
    ensures TablesOk(g, s')
    ensures Capacity(g, s) ==> Capacity(g, s')
    ensures Present(e) && WriteBit(e) && UserBit(e) ==> Maps(g.root, s.mem, s'.mem, v, Base2M(e))
    ensures !Present(e) ==> Unmaps(g.root, s.mem, s'.mem, v)
    ensures WritesTables(s, s') && E2(s'.mem, g.root, I4(v), I3(v), I2(v)) == e
  {
    Path(s.mem, g.root, s.role, I4(v), I3(v));
    StorePdeEntries(s.mem, s'.mem, g.root, s.role, I4(v), I3(v), I2(v), e, I4(v), I3(v), I2(v));
    StorePde(s.mem, s'.mem, g.root, s.role, I4(v), I3(v), I2(v), e);
    forall w: nat | DataAddress(w)
      ensures Access(s'.mem, g.root, w) ==
              if SamePage(v, w) then (if Present(e) then Some(PageTarget(e, w)) else None)
              else Access(s.mem, g.root, w)
    {
      StorePdeTranslation(s.mem, s'.mem, g.root, s.role, v, e, w);
    }
    hide Present, LeafOk, FrameOf, Access, SamePage, Base2M, Canonical, WellFormed, FirstGb, LastGb, E4, E3;
    if Capacity(g, s) {
      forall n: nat | n < |s'.four| && s'.four[n] ensures Serves(g, s'.mem, s'.role, n) {
        assert Serves(g, s.mem, s.role, n);
        StorePdeEntries(s.mem, s'.mem, g.root, s.role, I4(v), I3(v), I2(v), e,
                        256, s.role[Frame(g, n)].i3, 0);
      }
    }
  }

  /** Only words of page tables have changed, and no table has gone. */
  ghost predicate WritesTables(s: View, s': View) {
    s.role.Keys <= s'.role.Keys
    && forall f: nat, i: nat :: f !in s'.role ==> Word(s'.mem, f, i) == Word(s.mem, f, i)
  }

  lemma WritesNothing(s: View)
    ensures WritesTables(s, s)
  {}

  lemma WritesCompose(s: View, s1: View, s2: View)
    requires WritesTables(s, s1) && WritesTables(s1, s2)
    ensures WritesTables(s, s2)
  {}

  /** A table was linked: its frame is the first free one of the 4 KB pool, and its entry
      carries the flags 7. */
  ghost predicate TookFrame(g: Geo, four: seq<bool>, four': seq<bool>, e: nat) {
    exists k: nat ::
      FirstRun(four, k, 1) && four' == SetRange(four, k, 1, true) && e == g.fourStart + k * PAGE_SIZE_4K + 7
  }

  // ---- steps of page_alloc and page_free on the mapping ----

  lemma MapPageTranslated(g: Geo, mem: Frames, mem': Frames, phys: map<nat, nat>, i: nat, j: nat)
    requires GeoOk(g) && i < g.pages && Translated(g, mem, phys) && Maps(g.root, mem, mem', VPage(g, i), PPage(g, j))
    ensures Translated(g, mem', phys[i := j])
  {
    VPageAddress(g, i);
    forall v: nat | InVirt(g, v) && PageIdx(g, v) in phys[i := j]
      ensures Access(mem', g.root, v) ==
              Some(Target(PPage(g, phys[i := j][PageIdx(g, v)]) + v % PAGE_SIZE, true, true))
    {
      VirtIsData(g, v);
      VirtSamePage(g, VPage(g, i), v);
      hide Access, DataAddress, SamePage, VPage, PPage, InVirt, PageIdx, GeoOk;
    }
  }

  lemma UnmapPageTranslated(g: Geo, mem: Frames, mem': Frames, phys: map<nat, nat>, i: nat)
    requires GeoOk(g) && i < g.pages && Translated(g, mem, phys) && Unmaps(g.root, mem, mem', VPage(g, i))
    ensures Translated(g, mem', phys - {i})
  {
    VPageAddress(g, i);
    forall v: nat | InVirt(g, v) && PageIdx(g, v) in phys - {i}
      ensures Access(mem', g.root, v) == Some(Target(PPage(g, phys[PageIdx(g, v)]) + v % PAGE_SIZE, true, true))
    {
      VirtIsData(g, v);
      VirtSamePage(g, VPage(g, i), v);
      hide Access, DataAddress, SamePage, VPage, PPage, InVirt, PageIdx, GeoOk;
    }
  }

  lemma MapPage(g: Geo, s: View, s': View, keys: set<nat>, i: nat, j: nat)
    requires GeoOk(g) && Mapping(g, s, keys) && i !in keys && i < g.pages && FreeRun(s.core, j, 1)
    requires s'.core == SetRange(s.core, j, 1, true) && |s'.virt| == g.pages
    requires s'.phys == s.phys[i := j] && Maps(g.root, s.mem, s'.mem, VPage(g, i), PPage(g, j))
    ensures Mapping(g, s', keys + {i})
  {
    MapPageTranslated(g, s.mem, s'.mem, s.phys, i, j);
    hide GeoOk, Translated, Maps, Ones, SetRange, FreeRun, Injective;
    PairInserted(s.phys, s.core, i, j);
  }

  lemma PairInserted(phys: map<nat, nat>, core: seq<bool>, i: nat, j: nat)
    requires i !in phys && phys.Values == Ones(core) && Injective(phys) && FreeRun(core, j, 1)
    ensures phys[i := j].Keys == phys.Keys + {i}
    ensures phys[i := j].Values == Ones(SetRange(core, j, 1, true))
    ensures Injective(phys[i := j])
  {
    hide Ones, SetRange, FreeRun, Injective;
    SetOneOnes(core, j);
    ValuesInsert(phys, i, j);
  }


  lemma ValuesInsert(m: map<nat, nat>, i: nat, j: nat)
    requires i !in m
    ensures m[i := j].Values == m.Values + {j}
    ensures Injective(m) && j !in m.Values ==> Injective(m[i := j])
  {
    var m' := m[i := j];
    assert m'[i] == j;
    forall x | x in m.Values ensures x in m'.Values {
      var k :| k in m && m[k] == x;
      assert m'[k] == x;
    }
  }

  lemma UnmapPage(g: Geo, s: View, s': View, keys: set<nat>, i: nat)
    requires GeoOk(g) && Mapping(g, s, keys) && i in keys && s.phys[i] < |s.core|
    requires s'.core == SetRange(s.core, s.phys[i], 1, false) && |s'.virt| == g.pages
    requires s'.phys == s.phys - {i} && Unmaps(g.root, s.mem, s'.mem, VPage(g, i))
    ensures Mapping(g, s', keys - {i})
  {
    UnmapPageTranslated(g, s.mem, s'.mem, s.phys, i);
    hide GeoOk, Translated, Unmaps;
    ClearRangeOnes(s.core, s.phys[i], 1);
    assert Range(s.phys[i], 1) == {s.phys[i]};
    ValuesRemove(s.phys, i);
  }

  lemma ValuesRemove(m: map<nat, nat>, i: nat)
    requires i in m && Injective(m)
    ensures (m - {i}).Values == m.Values - {m[i]}
    ensures Injective(m - {i})
  {
    var m' := m - {i};
    forall x | x in m.Values - {m[i]} ensures x in m'.Values {
      var k :| k in m && m[k] == x;
      assert m'[k] == x;
    }
  }

  // ---- whole calls of page_alloc and page_free ----

  /** w lies in one of the n virtual pages from idx on (or in their alias in slot 0). */
  ghost predicate Touches(g: Geo, idx: nat, n: nat, w: nat) {
    exists i: nat :: idx <= i < idx + n && SamePage(VPage(g, i), w)
  }

  ghost predicate OthersSame(g: Geo, m: Frames, m': Frames, idx: nat, n: nat) {
    forall w: nat :: DataAddress(w) && !Touches(g, idx, n, w) ==>
      Access(m', g.root, w) == Access(m, g.root, w)
  }

  ghost predicate AllUnmapped(g: Geo, m': Frames, idx: nat, n: nat) {
    forall w: nat :: DataAddress(w) && Touches(g, idx, n, w) ==> Access(m', g.root, w) == None
  }

  /** The n pages from idx on took the first free core pages, in ascending order: every core
      page up to one of theirs is in use afterwards. */
  ghost predicate FirstFit(phys: map<nat, nat>, core: seq<bool>, idx: nat, n: nat) {
    (forall i: nat :: idx <= i < idx + n ==> i in phys && AllSet(core, phys[i]))
    && forall i: nat, k: nat :: idx <= i < k < idx + n ==> phys[i] < phys[k]
  }

  ghost predicate AllSet(core: seq<bool>, last: nat) {
    last < |core| && forall j: nat :: j <= last ==> core[j]
  }

  lemma FirstFitGrows(phys: map<nat, nat>, core: seq<bool>, idx: nat, n: nat, j: nat)
    requires FirstFit(phys, core, idx, n) && FirstRun(core, j, 1) && idx + n !in phys
    ensures FirstFit(phys[idx + n := j], SetRange(core, j, 1, true), idx, n + 1)
  {
    var core' := SetRange(core, j, 1, true);
    assert FreeRun(core, j, 1) && !core[j];
    forall k: nat | k < j ensures core[k] {
      assert !FreeRun(core, k, 1);
    }
    assert AllSet(core', j);
    forall i: nat | idx <= i < idx + n ensures AllSet(core', phys[i]) && phys[i] < j {
      assert AllSet(core, phys[i]);
    }
  }

  ghost predicate Extends(small: map<nat, nat>, large: map<nat, nat>) {
    forall i :: i in small ==> i in large && large[i] == small[i]
  }

  /** page_alloc took the first free run of virtual pages, mapped exactly those pages to the
      first free core pages in order, left every other translation alone and wrote to page
      tables only. */
  ghost predicate Allocated(g: Geo, s: View, s': View, idx: nat, cnt: nat) {
    FirstRun(s.virt, idx, cnt) && s'.virt == SetRange(s.virt, idx, cnt, true)
    && s'.phys.Keys == s.phys.Keys + Range(idx, cnt) && Extends(s.phys, s'.phys)
    && OthersSame(g, s.mem, s'.mem, idx, cnt)
    && FirstFit(s'.phys, s'.core, idx, cnt) && WritesTables(s, s')
  }

  /** page_free gave the pages back, unmapped exactly them, left every other translation
      alone and wrote to page tables only. */
  ghost predicate Freed(g: Geo, s: View, s': View, idx: nat, cnt: nat) {
    idx + cnt <= |s.virt| && s'.virt == SetRange(s.virt, idx, cnt, false)
    && s'.phys == s.phys - Range(idx, cnt)
    && OthersSame(g, s.mem, s'.mem, idx, cnt) && AllUnmapped(g, s'.mem, idx, cnt)
    && WritesTables(s, s')
  }

  /** The state inside page_alloc's loop: t of the cnt reserved pages are mapped. */
  ghost predicate Allocating(g: Geo, s: View, s': View, idx: nat, cnt: nat, t: nat) {
    GeoOk(g) && TablesOk(g, s') && Capacity(g, s') && Mapping(g, s', Ones(s.virt) + Range(idx, t))
    && FirstRun(s.virt, idx, cnt) && s'.virt == SetRange(s.virt, idx, cnt, true)
    && PhysGrown(s.phys, s'.phys, idx, t)
    && OthersSame(g, s.mem, s'.mem, idx, t)
    && FirstFit(s'.phys, s'.core, idx, t) && WritesTables(s, s')
  }

  ghost predicate PhysGrown(small: map<nat, nat>, large: map<nat, nat>, idx: nat, t: nat) {
    large.Keys == small.Keys + Range(idx, t) && Extends(small, large)
  }

  lemma AllocStart(g: Geo, s: View, s': View, idx: nat, cnt: nat)
    requires Inv(g, s) && FirstRun(s.virt, idx, cnt)
    requires s' == s.(virt := SetRange(s.virt, idx, cnt, true))
    ensures Allocating(g, s, s', idx, cnt, 0)
  {
    hide WellFormed, Translated, Serves, GeoOk, Access;
    assert Ones(s.virt) + Range(idx, 0) == Ones(s.virt);
    assert s.phys.Keys + Range(idx, 0) == s.phys.Keys;
  }

  /** Inside the loop there is always a free core page. */
  lemma AllocRoom(g: Geo, s: View, s': View, idx: nat, cnt: nat, t: nat)
    requires Allocating(g, s, s', idx, cnt, t) && t < cnt
    ensures HasRun(s'.core, 1)
    ensures idx + t < g.pages && idx + t !in s'.phys
  {
    hide TablesOk, Capacity, Translated, OthersSame, GeoOk, Extends, FirstFit, WritesTables;
    SetRangeOnes(s.virt, idx, cnt);
    RoomForCore(g, s', Ones(s.virt) + Range(idx, t), idx + t);
  }

  /** ... and, if a table is missing, a free 4 KB frame. */
  lemma TableRoom(g: Geo, s: View, v: nat)
    requires GeoOk(g) && TablesOk(g, s) && Capacity(g, s) && InVirt(g, v)
    ensures |Ones(s.four)| + MissingTables(s.mem, g.root, v) <= g.frames
  {
    VirtIsData(g, v);
    assert Present(E4(s.mem, g.root, 256));
    OnesBound(s.four);
    hide GeoOk, WellFormed, Capacity, I4, I3, HasRun, Ones;
    if !Present(E3(s.mem, g.root, 256, I3(v))) {
      RoomForTable(g, s, v);
    }
  }

  lemma AllocStep(g: Geo, s: View, s1: View, s2: View, idx: nat, cnt: nat, t: nat, j: nat)
    requires Allocating(g, s, s1, idx, cnt, t) && t < cnt && idx + t < g.pages && idx + t !in s1.phys
    requires FirstRun(s1.core, j, 1) && s2.core == SetRange(s1.core, j, 1, true)
    requires s2.virt == s1.virt && TablesOk(g, s2) && Capacity(g, s2) && WritesTables(s1, s2)
    requires s2.phys == s1.phys[idx + t := j]
    requires Maps(g.root, s1.mem, s2.mem, VPage(g, idx + t), PPage(g, j))
    ensures Allocating(g, s, s2, idx, cnt, t + 1)
  {
    IsFreeRun(s1.core, j, 1);
    hide TablesOk, Capacity, GeoOk, FreeRun, SetRange, FirstRun, Ones, Maps, OthersSame, PhysGrown, FirstFit,
         WritesTables;
    FirstFitGrows(s1.phys, s1.core, idx, t, j);
    WritesCompose(s, s1, s2);
    MappingGrows(g, s1, s2, Ones(s.virt), idx, t, j);
    PhysGrows(s.phys, s1.phys, idx, t, j);
    OthersGrow(g, s.mem, s1.mem, s2.mem, idx, t, PPage(g, j));
  }

  lemma IsFreeRun(bits: seq<bool>, j: nat, n: nat)
    requires FirstRun(bits, j, n)
    ensures FreeRun(bits, j, n)
  {}

  lemma MappingGrows(g: Geo, s1: View, s2: View, used: set<nat>, idx: nat, t: nat, j: nat)
    requires GeoOk(g) && Mapping(g, s1, used + Range(idx, t)) && idx + t < g.pages && idx + t !in s1.phys
    requires FreeRun(s1.core, j, 1) && s2.core == SetRange(s1.core, j, 1, true) && s2.virt == s1.virt
    requires s2.phys == s1.phys[idx + t := j]
    requires Maps(g.root, s1.mem, s2.mem, VPage(g, idx + t), PPage(g, j))
    ensures Mapping(g, s2, used + Range(idx, t + 1))
  {
    hide GeoOk, FreeRun, SetRange, Ones, Maps, Translated, Injective;
    RangeAdded(used, idx, t);
    MapPage(g, s1, s2, used + Range(idx, t), idx + t, j);
  }

  lemma PhysGrows(small: map<nat, nat>, large: map<nat, nat>, idx: nat, t: nat, j: nat)
    requires PhysGrown(small, large, idx, t) && idx + t !in large
    ensures PhysGrown(small, large[idx + t := j], idx, t + 1)
  {
    RangeAdded(small.Keys, idx, t);
    InsertKey(small, large, idx + t, j);
    hide Extends;
  }

  lemma InsertKey(small: map<nat, nat>, large: map<nat, nat>, i: nat, j: nat)
    requires i !in large
    ensures large[i := j].Keys == large.Keys + {i}
    ensures Extends(small, large) ==> Extends(small, large[i := j])
  {}

  lemma RangeAdded(a: set<nat>, idx: nat, t: nat)
    ensures a + Range(idx, t) + {idx + t} == a + Range(idx, t + 1)
  {
    RangeGrows(idx, t);
  }

  lemma RangeGrows(idx: nat, t: nat)
    ensures Range(idx, t + 1) == Range(idx, t) + {idx + t}
  {}

  lemma OthersGrow(g: Geo, m: Frames, m1: Frames, m2: Frames, idx: nat, t: nat, p: nat)
    requires OthersSame(g, m, m1, idx, t) && Maps(g.root, m1, m2, VPage(g, idx + t), p)
    ensures OthersSame(g, m, m2, idx, t + 1)
  {
    hide Access, DataAddress, SamePage, VPage;
    forall w: nat | DataAddress(w) && !Touches(g, idx, t + 1, w)
      ensures Access(m2, g.root, w) == Access(m, g.root, w)
    {
      TouchesGrows(g, idx, t, w);
    }
  }

  lemma TouchesGrows(g: Geo, idx: nat, t: nat, w: nat)
    ensures Touches(g, idx, t + 1, w) <==> Touches(g, idx, t, w) || SamePage(VPage(g, idx + t), w)
  {
    hide SamePage, VPage;
    if SamePage(VPage(g, idx + t), w) {
      assert Touches(g, idx, t + 1, w);
    }
  }

  lemma AllocEnd(g: Geo, s: View, s': View, idx: nat, cnt: nat)
    requires Allocating(g, s, s', idx, cnt, cnt)
    ensures Inv(g, s') && Allocated(g, s, s', idx, cnt)
  {
    hide TablesOk, Capacity, Translated, GeoOk, OthersSame, Extends, Injective, FirstFit, WritesTables;
    SetRangeOnes(s.virt, idx, cnt);
  }

  /** The state inside page_free's loop: t of the cnt pages are unmapped. */
  ghost predicate Freeing(g: Geo, s: View, s': View, idx: nat, cnt: nat, t: nat) {
    GeoOk(g) && TablesOk(g, s') && Capacity(g, s') && Mapping(g, s', Ones(s.virt) - Range(idx, t))
    && idx + cnt <= |s.virt| && s'.virt == SetRange(s.virt, idx, cnt, false)
    && Range(idx, cnt) <= Ones(s.virt) && s'.phys == s.phys - Range(idx, t)
    && OthersSame(g, s.mem, s'.mem, idx, t) && AllUnmapped(g, s'.mem, idx, t)
    && WritesTables(s, s')
  }

  lemma FreeStart(g: Geo, s: View, s': View, idx: nat, cnt: nat)
    requires Inv(g, s) && idx + cnt <= g.pages && Range(idx, cnt) <= Ones(s.virt)
    requires s' == s.(virt := SetRange(s.virt, idx, cnt, false))
    ensures Freeing(g, s, s', idx, cnt, 0)
  {
    hide WellFormed, Translated, Serves, GeoOk, Access, SamePage;
    assert Ones(s.virt) - Range(idx, 0) == Ones(s.virt);
    assert s.phys - Range(idx, 0) == s.phys;
  }

  /** V2P_2MB recovers in the loop the core page that page_alloc mapped. */
  lemma LoadedPage(g: Geo, s: View, v: nat, x: nat)
    requires TablesOk(g, s) && DataAddress(v) && Translate(s.mem, g.root, v) == Some(x)
    ensures Present(E4(s.mem, g.root, I4(v))) && Present(E3(s.mem, g.root, I4(v), I3(v)))
    ensures V2P(E2(s.mem, g.root, I4(v), I3(v), I2(v)), v) == x
  {
    TranslateData(s.mem, g.root, s.role, v);
    DataEntryClean(s.mem, g.root, s.role, v);
    V2PIsTranslation(E2(s.mem, g.root, I4(v), I3(v), I2(v)), v);
  }

  lemma FreeStep(g: Geo, s: View, s1: View, s2: View, idx: nat, cnt: nat, t: nat)
    requires Freeing(g, s, s1, idx, cnt, t) && t < cnt && idx + t in s1.phys && s1.phys[idx + t] < |s1.core|
    requires s2.core == SetRange(s1.core, s1.phys[idx + t], 1, false)
    requires s2.virt == s1.virt && TablesOk(g, s2) && Capacity(g, s2) && WritesTables(s1, s2)
    requires s2.phys == s1.phys - {idx + t}
    requires Unmaps(g.root, s1.mem, s2.mem, VPage(g, idx + t))
    ensures Freeing(g, s, s2, idx, cnt, t + 1)
  {
    hide TablesOk, Capacity, Translated, GeoOk, SetRange, Ones, Unmaps, OthersSame, AllUnmapped, Injective,
         WritesTables;
    WritesCompose(s, s1, s2);
    UnmapPage(g, s1, s2, Ones(s.virt) - Range(idx, t), idx + t);
    RangeGrows(idx, t);
    hide Range, Mapping;
    WithoutOne(Ones(s.virt), s.phys, Range(idx, t), idx + t);
    OthersShrink(g, s.mem, s1.mem, s2.mem, idx, t);
  }

  lemma WithoutOne(keys: set<nat>, m: map<nat, nat>, r: set<nat>, x: nat)
    ensures keys - r - {x} == keys - (r + {x}) && m - r - {x} == m - (r + {x})
  {}

  lemma OthersShrink(g: Geo, m: Frames, m1: Frames, m2: Frames, idx: nat, t: nat)
    requires OthersSame(g, m, m1, idx, t) && AllUnmapped(g, m1, idx, t)
    requires Unmaps(g.root, m1, m2, VPage(g, idx + t))
    ensures OthersSame(g, m, m2, idx, t + 1) && AllUnmapped(g, m2, idx, t + 1)
  {
    hide Access, DataAddress, SamePage, VPage, Touches;
    forall w: nat | DataAddress(w)
      ensures !Touches(g, idx, t + 1, w) ==> Access(m2, g.root, w) == Access(m, g.root, w)
      ensures Touches(g, idx, t + 1, w) ==> Access(m2, g.root, w) == None
    {
      TouchesGrows(g, idx, t, w);
    }
  }

  lemma FreeEnd(g: Geo, s: View, s': View, idx: nat, cnt: nat)
    requires Freeing(g, s, s', idx, cnt, cnt)
    ensures Inv(g, s') && Freed(g, s, s', idx, cnt)
  {
    hide TablesOk, Capacity, Translated, GeoOk, OthersSame, AllUnmapped, Injective, WritesTables;
    ClearRangeOnes(s.virt, idx, cnt);
  }
}
