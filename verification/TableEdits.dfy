/** What editing one table does to every translation.

    A frame that serves as a table has one role, and every present entry points
    to a frame of the role it must have. Roles make tables of different paths
    distinct, so an edit can only be seen along its own path.
  */
module TableEdits {
  import opened Words
  import opened Layout
  import opened PageTables

  datatype Role = Pml4 | Pdpt(slot: nat) | Pd(slot: nat, i3: nat)
  type Roles = map<nat, Role>

  /** PML4 slots 0 and 256 share one PDPT (boot/loader.asm:190-191). */
  function Alias(i4: nat): nat {
    if i4 == 256 then 0 else i4
  }

  /** The two addresses are translated by the same page-directory entry. */
  predicate SamePage(v: nat, w: nat) {
    Alias(I4(v)) == Alias(I4(w)) && I3(v) == I3(w) && I2(v) == I2(w)
  }

  /** Addresses outside the recursive slot: the ones that reach data pages. */
  predicate DataAddress(v: nat) {
    Canonical(v) && I4(v) != 511
  }

  ghost predicate SameTranslation(root: nat, m: Frames, m': Frames) {
    forall w: nat :: DataAddress(w) ==> Access(m', root, w) == Access(m, root, w)
  }

  /** The page of v is mapped to the 2 MB at p, offset by offset, for reading and writing and
      from every mode; nothing else changes. */
  ghost predicate Maps(root: nat, m: Frames, m': Frames, v: nat, p: nat) {
    forall w: nat :: DataAddress(w) ==>
      Access(m', root, w) ==
      if SamePage(v, w) then Some(Target(p + w % PAGE_SIZE, true, true)) else Access(m, root, w)
  }

  /** The page of v is unmapped; nothing else changes. */
  ghost predicate Unmaps(root: nat, m: Frames, m': Frames, v: nat) {
    forall w: nat :: DataAddress(w) ==>
      Access(m', root, w) == if SamePage(v, w) then None else Access(m, root, w)
  }

  /** The entry points to a table of the given role and restricts no access. */
  predicate Points(m: Frames, f: nat, i: nat, role: Roles, r: Role) {
    var e := Word(m, f, i);
    OpenTable(e) && FrameOf(e) in role && role[FrameOf(e)] == r
  }

  ghost predicate RootOk(m: Frames, root: nat, role: Roles) {
    root in role && role[root] == Pml4
    && RecursiveSlot(m, root)
    && Present(Word(m, root, 0)) && Present(Word(m, root, 256))
    && FrameOf(Word(m, root, 0)) == FrameOf(Word(m, root, 256))
    && forall i: nat :: i < 511 && Present(Word(m, root, i)) ==> Points(m, root, i, role, Pdpt(Alias(i)))
  }

  ghost predicate FrameOk(m: Frames, f: nat, role: Roles)
    requires f in role
  {
    match role[f]
    case Pml4 => true
    case Pdpt(s) => forall j: nat :: j < 512 && Present(Word(m, f, j)) ==> Points(m, f, j, role, Pd(s, j))
    case Pd(_, _) => forall k: nat :: k < 512 && Present(Word(m, f, k)) ==> LeafOk(Word(m, f, k))
  }

  /** The invariant of the page tables. */
  ghost predicate WellFormed(m: Frames, root: nat, role: Roles) {
    RootOk(m, root, role)
    && (forall f :: f in role ==> FrameOk(m, f, role))
    && forall f :: f in role && role[f] == Pml4 ==> f == root
  }

  /** The tables on the path of given indices. */
  lemma Path(m: Frames, root: nat, role: Roles, i4: nat, i3: nat)
    requires WellFormed(m, root, role) && i4 < 511 && i3 < 512 && Present(E4(m, root, i4))
    ensures var f := FrameOf(E4(m, root, i4));
            HasPdpt(m, root, i4) && OpenTable(E4(m, root, i4))
            && f in role && role[f] == Pdpt(Alias(i4)) && FrameOk(m, f, role)
    ensures Present(E3(m, root, i4, i3)) ==>
              var g := FrameOf(E3(m, root, i4, i3));
              HasPd(m, root, i4, i3) && OpenTable(E3(m, root, i4, i3))
              && g in role && role[g] == Pd(Alias(i4), i3) && FrameOk(m, g, role)
  {
    hide Present, PageSizeBit, HighBits, FrameOf, RecursiveSlot;
    assert Points(m, root, i4, role, Pdpt(Alias(i4)));
    var f := FrameOf(E4(m, root, i4));
    if Present(E3(m, root, i4, i3)) {
      assert Points(m, f, i3, role, Pd(Alias(i4), i3));
    }
  }

  /** Paths meet exactly where the aliased slot and the index agree. */
  lemma PathsMeet(m: Frames, root: nat, role: Roles, i4: nat, i3: nat, j4: nat, j3: nat)
    requires WellFormed(m, root, role) && i4 < 511 && i3 < 512 && j4 < 511 && j3 < 512
    requires Present(E4(m, root, i4)) && Present(E4(m, root, j4))
    ensures FrameOf(E4(m, root, i4)) == FrameOf(E4(m, root, j4)) <==> Alias(i4) == Alias(j4)
    ensures Present(E3(m, root, i4, i3)) && Present(E3(m, root, j4, j3)) ==>
              (FrameOf(E3(m, root, i4, i3)) == FrameOf(E3(m, root, j4, j3))
               <==> Alias(i4) == Alias(j4) && i3 == j3)
  {
    Path(m, root, role, i4, i3);
    Path(m, root, role, j4, j3);
    hide Present, PageSizeBit, HighBits, FrameOf, RecursiveSlot, FrameOk, Points;
  }

  /** The target of an address in the 2 MB page that e maps, on a path of open tables. */
  function PageTarget(e: nat, v: nat): Target {
    Target(Base2M(e) + v % PAGE_SIZE, WriteBit(e), UserBit(e))
  }

  /** Outside the recursive slot every mapping is a 2 MB page, with the access rights of its
      own entry. */
  lemma TranslateData(m: Frames, root: nat, role: Roles, v: nat)
    requires WellFormed(m, root, role) && DataAddress(v)
    ensures var (i4, i3, i2) := (I4(v), I3(v), I2(v));
            Access(m, root, v) ==
            if Present(E4(m, root, i4)) && Present(E3(m, root, i4, i3)) && Present(E2(m, root, i4, i3, i2))
            then Some(PageTarget(E2(m, root, i4, i3, i2), v)) else None
  {
    if Present(E4(m, root, I4(v))) {
      Path(m, root, role, I4(v), I3(v));
    }
    hide Present, PageSizeBit, HighBits, FrameOf, RecursiveSlot, I4, I3, I2, I1, Canonical, Base2M, RootOk;
  }

  /** The entry that maps a data page has no bit set that V2P_2MB would mistake for address. */
  lemma DataEntryClean(m: Frames, root: nat, role: Roles, v: nat)
    requires WellFormed(m, root, role) && DataAddress(v)
    requires Present(E4(m, root, I4(v))) && Present(E3(m, root, I4(v), I3(v)))
    requires Present(E2(m, root, I4(v), I3(v), I2(v)))
    ensures HighBits(E2(m, root, I4(v), I3(v), I2(v))) == 0
  {
    Path(m, root, role, I4(v), I3(v));
    hide Present, PageSizeBit, HighBits, FrameOf, I4, I3, I2, RootOk;
  }

  // ---- edits ----

  /** `after` is `before` with one word replaced. */
  ghost predicate Stored(before: Frames, after: Frames, f: nat, i: nat, e: nat) {
    forall g: nat, j: nat :: Word(after, g, j) == if g == f && j == i then e else Word(before, g, j)
  }

  /** `after` is `before` with entry (f, i) pointing to the zeroed table `newFrame`. */
  ghost predicate Linked(before: Frames, after: Frames, f: nat, i: nat, e: nat, newFrame: nat) {
    forall g: nat, j: nat :: Word(after, g, j) ==
      if g == newFrame && j < 512 then 0 else if g == f && j == i then e else Word(before, g, j)
  }

  /** Writing a page-directory entry keeps the invariant and the tables, and
      changes the entry of exactly the matching (aliased) indices. */
  lemma StorePde(m: Frames, m': Frames, root: nat, role: Roles, i4: nat, i3: nat, i2: nat, e: nat)
    requires WellFormed(m, root, role) && i4 < 511 && i3 < 512 && i2 < 512
    requires Present(E4(m, root, i4)) && Present(E3(m, root, i4, i3))
    requires Stored(m, m', FrameOf(E3(m, root, i4, i3)), i2, e)
    requires Present(e) ==> LeafOk(e)
    ensures WellFormed(m', root, role)
    ensures forall j4: nat {:trigger E4(m', root, j4)} :: j4 < 511 ==> E4(m', root, j4) == E4(m, root, j4)
  {
    Path(m, root, role, i4, i3);
    hide Present, PageSizeBit, HighBits, FrameOf;
    var f := FrameOf(E3(m, root, i4, i3));
    forall g | g in role ensures FrameOk(m', g, role) {
      assert FrameOk(m, g, role);
      if role[g].Pdpt? {
        forall j: nat | j < 512 && Present(Word(m', g, j)) ensures Points(m', g, j, role, Pd(role[g].slot, j)) {
          assert Points(m, g, j, role, Pd(role[g].slot, j));
        }
      }
    }
    forall i: nat | i < 511 && Present(Word(m', root, i)) ensures Points(m', root, i, role, Pdpt(Alias(i))) {
      assert Points(m, root, i, role, Pdpt(Alias(i)));
    }
  }

  lemma StorePdeEntries(m: Frames, m': Frames, root: nat, role: Roles, i4: nat, i3: nat, i2: nat, e: nat,
                        j4: nat, j3: nat, j2: nat)
    requires WellFormed(m, root, role) && i4 < 511 && i3 < 512 && i2 < 512
    requires Present(E4(m, root, i4)) && Present(E3(m, root, i4, i3))
    requires Stored(m, m', FrameOf(E3(m, root, i4, i3)), i2, e)
    requires j4 < 511 && j3 < 512 && j2 < 512
    ensures E4(m', root, j4) == E4(m, root, j4)
    ensures Present(E4(m, root, j4)) ==> E3(m', root, j4, j3) == E3(m, root, j4, j3)
    ensures Present(E4(m, root, j4)) && Present(E3(m, root, j4, j3)) ==>
              E2(m', root, j4, j3, j2) ==
              if Alias(i4) == Alias(j4) && i3 == j3 && i2 == j2 then e else E2(m, root, j4, j3, j2)
    ensures Alias(i4) == Alias(j4) ==> Present(E4(m, root, j4))
    ensures Alias(i4) == Alias(j4) && i3 == j3 ==> E3(m, root, j4, j3) == E3(m, root, i4, i3)
  {
    Path(m, root, role, i4, i3);
    if Present(E4(m, root, j4)) {
      Path(m, root, role, j4, j3);
      PathsMeet(m, root, role, i4, i3, j4, j3);
    }
    hide Present, PageSizeBit, HighBits, FrameOf, FrameOk, Points;
  }

  /** The translation of every data address after a page-directory entry is written. */
  lemma StorePdeTranslation(m: Frames, m': Frames, root: nat, role: Roles, v: nat, e: nat, w: nat)
    requires WellFormed(m, root, role) && DataAddress(v) && DataAddress(w)
    requires Present(E4(m, root, I4(v))) && Present(E3(m, root, I4(v), I3(v)))
    requires Stored(m, m', FrameOf(E3(m, root, I4(v), I3(v))), I2(v), e)
    requires Present(e) ==> LeafOk(e)
    ensures Access(m', root, w) ==
            if SamePage(v, w) then (if Present(e) then Some(PageTarget(e, w)) else None)
            else Access(m, root, w)
  {
    StorePde(m, m', root, role, I4(v), I3(v), I2(v), e);
    StorePdeEntries(m, m', root, role, I4(v), I3(v), I2(v), e, I4(w), I3(w), I2(w));
    hide Present, PageSizeBit, HighBits, FrameOf, Base2M, WellFormed, I4, I3, I2, Stored, E4, E3, E2, Alias,
         Access, Canonical;
    TranslateData(m, root, role, w);
    TranslateData(m', root, role, w);
  }

  /** Linking a fresh, zeroed PDPT keeps the invariant. */
  lemma LinkPdpt(m: Frames, m': Frames, root: nat, role: Roles, i4: nat, e: nat, newFrame: nat)
    requires WellFormed(m, root, role) && i4 < 511 && !Present(E4(m, root, i4)) && newFrame !in role
    requires OpenTable(e) && FrameOf(e) == newFrame
    requires Linked(m, m', root, i4, e, newFrame)
    ensures WellFormed(m', root, role[newFrame := Pdpt(Alias(i4))])
  {
    var role' := role[newFrame := Pdpt(Alias(i4))];
    assert !Present(0);
    hide Present, PageSizeBit, HighBits, FrameOf;
    forall g | g in role' ensures FrameOk(m', g, role') {
      if g != newFrame {
        assert FrameOk(m, g, role);
        if role[g].Pdpt? {
          forall j: nat | j < 512 && Present(Word(m', g, j)) ensures Points(m', g, j, role', Pd(role[g].slot, j)) {
            assert Points(m, g, j, role, Pd(role[g].slot, j));
          }
        }
      }
    }
    forall i: nat | i < 511 && Present(Word(m', root, i)) ensures Points(m', root, i, role', Pdpt(Alias(i))) {
      assert i != i4 ==> Points(m, root, i, role, Pdpt(Alias(i)));
    }
  }

  /** Linking a fresh, zeroed page directory keeps the invariant. */
  lemma LinkPd(m: Frames, m': Frames, root: nat, role: Roles, i4: nat, i3: nat, e: nat, newFrame: nat)
    requires WellFormed(m, root, role) && i4 < 511 && i3 < 512 && newFrame !in role
    requires Present(E4(m, root, i4)) && !Present(E3(m, root, i4, i3))
    requires OpenTable(e) && FrameOf(e) == newFrame
    requires Linked(m, m', FrameOf(E4(m, root, i4)), i3, e, newFrame)
    ensures WellFormed(m', root, role[newFrame := Pd(Alias(i4), i3)])
  {
    var role' := role[newFrame := Pd(Alias(i4), i3)];
    Path(m, root, role, i4, i3);
    assert !Present(0);
    hide Present, PageSizeBit, HighBits, FrameOf;
    forall g | g in role' ensures FrameOk(m', g, role') {
      if g != newFrame {
        assert FrameOk(m, g, role);
        if role[g].Pdpt? {
          forall j: nat | j < 512 && Present(Word(m', g, j)) ensures Points(m', g, j, role', Pd(role[g].slot, j)) {
            assert (g == FrameOf(E4(m, root, i4)) && j == i3) || Points(m, g, j, role, Pd(role[g].slot, j));
          }
        }
      }
    }
    forall i: nat | i < 511 && Present(Word(m', root, i)) ensures Points(m', root, i, role', Pdpt(Alias(i))) {
      assert Points(m, root, i, role, Pdpt(Alias(i)));
    }
  }

  /** Linking an empty table changes no translation. */
  lemma LinkPdptTranslation(m: Frames, m': Frames, root: nat, role: Roles, i4: nat, e: nat, newFrame: nat, w: nat)
    requires WellFormed(m, root, role) && i4 < 511 && !Present(E4(m, root, i4)) && newFrame !in role
    requires OpenTable(e) && FrameOf(e) == newFrame
    requires Linked(m, m', root, i4, e, newFrame)
    requires DataAddress(w)
    ensures Access(m', root, w) == Access(m, root, w)
  {
    LinkPdpt(m, m', root, role, i4, e, newFrame);
    TranslateData(m, root, role, w);
    TranslateData(m', root, role[newFrame := Pdpt(Alias(i4))], w);
    assert !Present(0);
    if Present(E4(m, root, I4(w))) {
      Path(m, root, role, I4(w), I3(w));
    }
    hide Present, PageSizeBit, HighBits, FrameOf, Base2M, I4, I3, I2, Access, Canonical, FrameOk, Points;
  }

  lemma LinkPdTranslation(m: Frames, m': Frames, root: nat, role: Roles, i4: nat, i3: nat, e: nat, newFrame: nat,
                          w: nat)
    requires WellFormed(m, root, role) && i4 < 511 && i3 < 512 && newFrame !in role
    requires Present(E4(m, root, i4)) && !Present(E3(m, root, i4, i3))
    requires OpenTable(e) && FrameOf(e) == newFrame
    requires Linked(m, m', FrameOf(E4(m, root, i4)), i3, e, newFrame)
    requires DataAddress(w)
    ensures Access(m', root, w) == Access(m, root, w)
  {
    LinkPd(m, m', root, role, i4, i3, e, newFrame);
    TranslateData(m, root, role, w);
    TranslateData(m', root, role[newFrame := Pd(Alias(i4), i3)], w);
    assert !Present(0);
    Path(m, root, role, i4, i3);
    if Present(E4(m, root, I4(w))) {
      Path(m, root, role, I4(w), I3(w));
    }
    hide Present, PageSizeBit, HighBits, FrameOf, Base2M, I4, I3, I2, Access, Canonical, FrameOk, Points;
  }
}
