/** What the page allocator's invariant and contracts give over whole calls and runs. */
module PagerTheorems {
  import opened Words
  import opened Layout
  import opened Bitmaps
  import opened PageTables
  import opened TableEdits
  import opened PagerModel

  /** page_alloc followed by page_free of the result restores both bitmaps and the
      mapping, unmaps exactly those pages and changes no other translation. */
  lemma AllocThenFree(g: Geo, s: View, s1: View, s2: View, idx: nat, cnt: nat)
    requires Inv(g, s) && Inv(g, s1) && Inv(g, s2)
    requires Allocated(g, s, s1, idx, cnt) && Freed(g, s1, s2, idx, cnt)
    ensures s2.virt == s.virt && s2.core == s.core && s2.phys == s.phys
    ensures AllUnmapped(g, s2.mem, idx, cnt) && OthersSame(g, s.mem, s2.mem, idx, cnt)
  {
    ClearUndoesSet(s.virt, idx, cnt);
    hide TablesOk, Capacity, GeoOk, Translated, AllUnmapped, Injective;
    SetRangeOnes(s.virt, idx, cnt);
    MapRestored(s.phys, s1.phys, Range(idx, cnt));
    SameOnes(s.core, s2.core);
    OthersCompose(g, s.mem, s1.mem, s2.mem, idx, cnt);
  }

  lemma MapRestored(m: map<nat, nat>, m1: map<nat, nat>, added: set<nat>)
    requires m1.Keys == m.Keys + added && m.Keys !! added && Extends(m, m1)
    ensures m1 - added == m
  {}

  lemma SameOnes(a: seq<bool>, b: seq<bool>)
    requires |a| == |b| && Ones(a) == Ones(b)
    ensures a == b
  {
    forall k: nat | k < |a| ensures a[k] == b[k] {
      assert a[k] <==> k in Ones(a);
      assert b[k] <==> k in Ones(b);
    }
  }

  lemma OthersCompose(g: Geo, m: Frames, m1: Frames, m2: Frames, idx: nat, cnt: nat)
    requires OthersSame(g, m, m1, idx, cnt) && OthersSame(g, m1, m2, idx, cnt)
    ensures OthersSame(g, m, m2, idx, cnt)
  {
    hide Access, DataAddress, Touches;
  }

  /** As many virtual pages are in use as core pages. */
  lemma Conservation(g: Geo, s: View)
    requires Inv(g, s)
    ensures |Ones(s.virt)| == |Ones(s.core)|
    ensures forall i, j :: i in s.phys && j in s.phys && i != j ==> s.phys[i] != s.phys[j]
    ensures s.phys.Keys == Ones(s.virt) && s.phys.Values == Ones(s.core)
  {
    PhysSize(s.phys);
  }

  ghost predicate IsMapped(g: Geo, s: View, v: nat) {
    InVirt(g, v) && PageIdx(g, v) in s.phys
  }

  /** Allocated virtual addresses never share memory, so they behave as memory of
      their own; and none of them reaches a page table. */
  lemma MappedAddressesDistinct(g: Geo, s: View, v: nat, w: nat)
    requires Inv(g, s) && IsMapped(g, s, v) && IsMapped(g, s, w)
    ensures Translate(s.mem, g.root, v).Some?
    ensures Access(s.mem, g.root, v).value.write && Access(s.mem, g.root, v).value.user
    ensures Translate(s.mem, g.root, v) == Translate(s.mem, g.root, w) <==> v == w
  {
    hide TablesOk, Capacity, Access, GeoOk;
    VirtPageIdx(g, v);
    VirtPageIdx(g, w);
    assert s.phys[PageIdx(g, v)] in s.phys.Values && s.phys[PageIdx(g, w)] in s.phys.Values;
    hide VPage, PageIdx, Ones, InVirt;
    PPageOffset(g, s.phys[PageIdx(g, v)], v % PAGE_SIZE);
    PPageOffset(g, s.phys[PageIdx(g, w)], w % PAGE_SIZE);
    hide PPage;
  }

  lemma PPageOffset(g: Geo, j: nat, off: nat)
    requires off < PAGE_SIZE
    ensures (PPage(g, j) + off - g.coreStart) / PAGE_SIZE == j && (PPage(g, j) + off - g.coreStart) % PAGE_SIZE == off
  {
    DivUnique(PPage(g, j) + off - g.coreStart, PAGE_SIZE, j, off);
  }

  lemma MappedAddressIsData(g: Geo, s: View, v: nat, f: nat)
    requires Inv(g, s) && IsMapped(g, s, v) && f in s.role
    ensures var pa := Translate(s.mem, g.root, v).value;
            Translate(s.mem, g.root, v).Some? && g.coreStart <= pa < g.fourStart && pa / PAGE_SIZE_4K != f
  {
    hide WellFormed, Capacity, Access, VPage, GeoOk;
    var j := s.phys[PageIdx(g, v)];
    assert j in s.phys.Values;
    assert TableFrame(g, s.four, f);
    hide PPage, Ones, PageIdx, TableFrame;
    CoreAddress(g, j, v % PAGE_SIZE);
    TableOutside(g, s.four, f, PPage(g, j) + v % PAGE_SIZE);
  }

  lemma CoreAddress(g: Geo, j: nat, off: nat)
    requires GeoOk(g) && j < g.pages && off < PAGE_SIZE
    ensures g.coreStart <= PPage(g, j) + off < g.fourStart
  {
    PPageAddress(g, j);
  }

  lemma TableOutside(g: Geo, four: seq<bool>, f: nat, pa: nat)
    requires GeoOk(g) && TableFrame(g, four, f) && g.coreStart <= pa < g.fourStart
    ensures pa / PAGE_SIZE_4K != f
  {
    hide TableFrame;
    FrameOfAddress(pa);
    FrameOutside(g, four, f);
  }

  lemma FrameOfAddress(pa: nat)
    ensures pa / 0x1000 * 0x1000 <= pa < pa / 0x1000 * 0x1000 + 0x1000
  {}

  lemma FrameOutside(g: Geo, four: seq<bool>, f: nat)
    requires GeoOk(g) && TableFrame(g, four, f)
    ensures f * 0x1000 + 0x1000 <= g.coreStart || g.fourStart <= f * 0x1000
  {
    if f < 0x100 {
      WholeFrame(f, g.coreStart);
    } else {
      WholeStart(g.fourStart, f);
    }
  }

  lemma WholeFrame(f: nat, end: nat)
    requires f * 0x1000 < end && end % 0x20_0000 == 0
    ensures f * 0x1000 + 0x1000 <= end
  {
    var q := end / 0x20_0000;
    assert end == q * 512 * 0x1000;
  }

  lemma WholeStart(start: nat, f: nat)
    requires start % 0x1000 == 0 && start / 0x1000 <= f
    ensures start <= f * 0x1000
  {}

  /** page_alloc and page_free change neither the place nor the contents of a page that is
      allocated before and after. */
  lemma DataKept(g: Geo, s: View, s': View, v: nat)
    requires Inv(g, s) && Inv(g, s') && WritesTables(s, s') && IsMapped(g, s, v)
    requires PageIdx(g, v) in s'.phys && s'.phys[PageIdx(g, v)] == s.phys[PageIdx(g, v)]
    ensures Access(s'.mem, g.root, v) == Access(s.mem, g.root, v) && Access(s.mem, g.root, v).Some?
    ensures var f := Access(s.mem, g.root, v).value.address / PAGE_SIZE_4K;
            forall i: nat :: Word(s'.mem, f, i) == Word(s.mem, f, i)
  {
    hide Inv, Access, PPage, PageIdx, WritesTables;
    MappedTarget(g, s, v);
    MappedTarget(g, s', v);
    OffTables(s, s', (PPage(g, s.phys[PageIdx(g, v)]) + v % PAGE_SIZE) / PAGE_SIZE_4K);
  }

  lemma OffTables(s: View, s': View, f: nat)
    requires WritesTables(s, s') && f !in s'.role
    ensures forall i: nat :: Word(s'.mem, f, i) == Word(s.mem, f, i)
  {}

  lemma MappedTarget(g: Geo, s: View, v: nat)
    requires Inv(g, s) && IsMapped(g, s, v)
    ensures var pa := PPage(g, s.phys[PageIdx(g, v)]) + v % PAGE_SIZE;
            Access(s.mem, g.root, v) == Some(Target(pa, true, true)) && pa / PAGE_SIZE_4K !in s.role
  {
    var pa := PPage(g, s.phys[PageIdx(g, v)]) + v % PAGE_SIZE;
    hide TablesOk, Capacity, Access, PPage, GeoOk, InVirt, PageIdx;
    if pa / PAGE_SIZE_4K in s.role {
      MappedAddressIsData(g, s, v, pa / PAGE_SIZE_4K);
    }
  }

  lemma AllocKeepsData(g: Geo, s: View, s': View, idx: nat, cnt: nat, v: nat)
    requires Inv(g, s) && Inv(g, s') && Allocated(g, s, s', idx, cnt) && IsMapped(g, s, v)
    ensures Access(s'.mem, g.root, v) == Access(s.mem, g.root, v) && Access(s.mem, g.root, v).Some?
    ensures var f := Access(s.mem, g.root, v).value.address / PAGE_SIZE_4K;
            forall i: nat :: Word(s'.mem, f, i) == Word(s.mem, f, i)
  {
    hide Inv, Access, WritesTables, OthersSame, FirstFit;
    DataKept(g, s, s', v);
  }

  lemma FreeKeepsData(g: Geo, s: View, s': View, idx: nat, cnt: nat, v: nat)
    requires Inv(g, s) && Inv(g, s') && Freed(g, s, s', idx, cnt) && IsMapped(g, s, v)
    requires !(idx <= PageIdx(g, v) < idx + cnt)
    ensures Access(s'.mem, g.root, v) == Access(s.mem, g.root, v) && Access(s.mem, g.root, v).Some?
    ensures var f := Access(s.mem, g.root, v).value.address / PAGE_SIZE_4K;
            forall i: nat :: Word(s'.mem, f, i) == Word(s.mem, f, i)
  {
    hide Inv, Access, WritesTables, OthersSame, AllUnmapped, PageIdx;
    DataKept(g, s, s', v);
  }

  /** page_alloc takes the first free core pages: none that was free is passed over. */
  lemma CorePagesFirstFit(g: Geo, s: View, s': View, idx: nat, cnt: nat, i: nat, j: nat)
    requires Inv(g, s) && Inv(g, s') && Allocated(g, s, s', idx, cnt)
    requires idx <= i < idx + cnt && i in s'.phys && j < s'.phys[i] && !(j in Ones(s.core))
    ensures exists k :: idx <= k < i && k in s'.phys && s'.phys[k] == j
  {
    hide TablesOk, Capacity, GeoOk, Translated, OthersSame, WritesTables;
    assert AllSet(s'.core, s'.phys[i]);
    assert j in Ones(s'.core);
    var k :| k in s'.phys && s'.phys[k] == j;
    if k in s.phys {
      InValues(s.phys, k);
      assert false;
    }
    InOrder(s'.phys, s'.core, idx, cnt, i, k);
  }

  lemma InValues(m: map<nat, nat>, k: nat)
    requires k in m
    ensures m[k] in m.Values
  {}

  lemma InOrder(phys: map<nat, nat>, core: seq<bool>, idx: nat, cnt: nat, i: nat, k: nat)
    requires FirstFit(phys, core, idx, cnt) && idx <= i < idx + cnt && idx <= k < idx + cnt && i in phys && k in phys
    ensures phys[k] < phys[i] ==> k < i
  {}

  // ---- exhausted pools ----

  /** page_alloc answers the address of bitmap_alloc's index. The pages it names were free
      exactly when the virtual pool has a run of that length. */
  lemma AnswerNamesFreePages(g: Geo, s: View, cnt: nat, idx: nat)
    requires Inv(g, s) && 0 < cnt && IsAllocIndex(s.virt, cnt, idx)
    ensures (forall i: nat :: idx <= i < idx + cnt ==> PageFree(g, s, i)) <==> HasRun(s.virt, cnt)
  {
    hide GeoOk, TablesOk, Capacity, Translated, Injective, VPage;
    AllocAnswersFreeBits(s.virt, cnt, idx);
    forall i: nat ensures PageFree(g, s, i) <==> ClearBit(s.virt, i) {
      if i < g.pages {
        VPageAddress(g, i);
      }
    }
    hide IsAllocIndex, PageFree, ClearBit, Mapping, HasRun, FreeRun;
    RunOfBits(s.virt, cnt, idx);
  }

  /** Page i exists and is not allocated. */
  ghost predicate PageFree(g: Geo, s: View, i: nat) {
    i < g.pages && !IsMapped(g, s, VPage(g, i))
  }

  predicate ClearBit(bits: seq<bool>, i: nat) {
    i < |bits| && !bits[i]
  }

  lemma RunOfBits(bits: seq<bool>, cnt: nat, idx: nat)
    requires 0 < cnt
    ensures FreeRun(bits, idx, cnt) <==> forall i: nat :: idx <= i < idx + cnt ==> ClearBit(bits, i)
  {
    if forall i: nat :: idx <= i < idx + cnt ==> ClearBit(bits, i) {
      assert ClearBit(bits, idx + cnt - 1);
      assert forall i: nat :: idx <= i < idx + cnt ==> ClearBit(bits, i) ==> !bits[i];
    }
  }

  /** A full virtual pool has a full core pool, and its first page, which valloc then
      answers, is allocated. */
  lemma FullPools(g: Geo, s: View)
    requires Inv(g, s) && 0 < g.pages && !HasRun(s.virt, 1)
    ensures !HasRun(s.core, 1) && 0 in s.phys && IsMapped(g, s, VPage(g, 0))
  {
    hide GeoOk, TablesOk, Capacity, Translated, Injective, VPage;
    OnesBound(s.virt);
    OnesBound(s.core);
    Conservation(g, s);
    assert !FreeRun(s.virt, 0, 1);
    assert 0 in Ones(s.virt);
    VPageAddress(g, 0);
  }

  /** Mapping page 0 to core page 0 once more: the invariant survives exactly if that was
      its core page already; otherwise two allocated pages share one core page. */
  lemma FirstPageRemapped(g: Geo, s: View, s': View)
    requires Inv(g, s) && 0 in s.phys && TablesOk(g, s') && Capacity(g, s')
    requires s'.phys == s.phys && s'.virt == s.virt && s'.core == s.core
    requires Maps(g.root, s.mem, s'.mem, VPage(g, 0), PPage(g, 0))
    ensures Inv(g, s') <==> s.phys[0] == 0
    ensures forall i :: i in s.phys && s.phys[i] == 0 ==> Translate(s'.mem, g.root, VPage(g, i)) == Some(PPage(g, 0))
  {
    hide TablesOk, Capacity, Injective, Maps, Ones, Access, GeoOk;
    assert 0 < g.pages;
    forall i | i in s.phys && s.phys[i] == 0
      ensures Translate(s'.mem, g.root, VPage(g, i)) == Some(PPage(g, 0))
    {
      VPageAddress(g, i);
      RemappedAddress(g, s, s', VPage(g, i));
    }
    hide Translate;
    RemappedTranslated(g, s, s');
  }

  lemma RemappedTranslated(g: Geo, s: View, s': View)
    requires Inv(g, s) && 0 in s.phys && 0 < g.pages && s'.phys == s.phys
    requires Maps(g.root, s.mem, s'.mem, VPage(g, 0), PPage(g, 0))
    ensures Translated(g, s'.mem, s'.phys) <==> s.phys[0] == 0
  {
    hide TablesOk, Capacity, Injective, Maps, Ones, Access, GeoOk;
    forall v: nat | InVirt(g, v) && PageIdx(g, v) in s.phys
      ensures Access(s'.mem, g.root, v) == Some(RemappedTarget(g, s, v))
    {
      RemappedAddress(g, s, s', v);
    }
    VPageAddress(g, 0);
    hide VPage, InVirt, PageIdx;
  }

  /** Where page 0 leads after it has been mapped to core page 0, and the others as before. */
  function RemappedTarget(g: Geo, s: View, v: nat): Target
    requires InVirt(g, v) && PageIdx(g, v) in s.phys
  {
    Target(PPage(g, if PageIdx(g, v) == 0 then 0 else s.phys[PageIdx(g, v)]) + v % PAGE_SIZE, true, true)
  }

  lemma RemappedAddress(g: Geo, s: View, s': View, v: nat)
    requires Inv(g, s) && InVirt(g, v) && PageIdx(g, v) in s.phys && 0 < g.pages
    requires Maps(g.root, s.mem, s'.mem, VPage(g, 0), PPage(g, 0))
    ensures Access(s'.mem, g.root, v) == Some(RemappedTarget(g, s, v))
  {
    hide TablesOk, Capacity, Injective, Access, VPage, PPage, InVirt, PageIdx, GeoOk, SamePage, DataAddress;
    VPageAddress(g, 0);
    VirtIsData(g, v);
    VirtSamePage(g, VPage(g, 0), v);
    Mapped(g, s, v);
    hide Inv;
  }

  lemma Mapped(g: Geo, s: View, v: nat)
    requires Inv(g, s) && InVirt(g, v) && PageIdx(g, v) in s.phys
    ensures Access(s.mem, g.root, v) == Some(Target(PPage(g, s.phys[PageIdx(g, v)]) + v % PAGE_SIZE, true, true))
  {
    hide TablesOk, Capacity, Injective, Access, PPage, GeoOk;
  }
}
