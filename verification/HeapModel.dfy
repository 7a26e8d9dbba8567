/** The block allocator as a state machine: what kmalloc and kfree do to slabs,
    cache lists and large blocks, without memory words. `KernelHeap.Heap` proves that the
    source's stores implement these steps.
  */
module HeapModel {
  import opened Words
  import opened Layout
  import opened SlabGeometry

  /** A slab: its class, its free items in list order and its items in use. */
  datatype Slab = Slab(cls: nat, free: seq<nat>, live: set<nat>)

  /** `lists[c]` is the slab list of cache c and `totals[c]` its cumulative item count;
      `large` are the whole pages handed out by kmalloc. */
  datatype State = State(slabs: map<nat, Slab>, lists: seq<seq<nat>>, totals: seq<nat>, large: set<nat>)

  ghost predicate NoDup(s: seq<nat>) {
    forall i, j :: 0 <= i < j < |s| ==> s[i] != s[j]
  }

  ghost function Elems(s: seq<nat>): set<nat> {
    set x | x in s
  }

  ghost function ItemSeq(b: nat, c: nat, n: nat): (s: seq<nat>)
    ensures |s| == n
  {
    seq(n, i requires 0 <= i < n => ItemAt(b, Exp(c), i))
  }

  ghost function Items(b: nat, c: nat): set<nat>
    requires c < SLAB_CACHE_SIZE
  {
    Elems(ItemSeq(b, c, Total(Exp(c))))
  }

  /** Free and live items partition the carved items. */
  ghost predicate SlabOk(b: nat, s: Slab) {
    s.cls < SLAB_CACHE_SIZE && NoDup(s.free)
    && Elems(s.free) !! s.live && Elems(s.free) + s.live == Items(b, s.cls)
  }

  /** A slab is on its cache's list exactly when it has a free item. */
  ghost predicate ListOk(h: State, c: nat)
    requires c < |h.lists|
  {
    NoDup(h.lists[c])
    && forall b :: b in h.lists[c] <==> b in h.slabs && h.slabs[b].cls == c && h.slabs[b].free != []
  }

  ghost predicate PageBase(b: nat) {
    0 < b && b % PAGE_SIZE == 0 && b + PAGE_SIZE <= WORD_LIMIT
  }

  ghost function Pages(h: State): set<nat> {
    h.slabs.Keys + h.large
  }

  ghost predicate Inv(h: State) {
    |h.lists| == SLAB_CACHE_SIZE && |h.totals| == SLAB_CACHE_SIZE
    && (forall b :: b in h.slabs ==> SlabOk(b, h.slabs[b]))
    && (forall c: nat :: c < SLAB_CACHE_SIZE ==> ListOk(h, c))
    && h.slabs.Keys !! h.large
    && forall b :: b in Pages(h) ==> PageBase(b)
  }

  // ---- steps ----

  /** slab_create and its link into the cache: a page becomes a slab of free items. */
  ghost function AddSlab(h: State, c: nat, b: nat): State
    requires c < SLAB_CACHE_SIZE && c < |h.lists| && c < |h.totals|
  {
    h.(slabs := h.slabs[b := Slab(c, ItemSeq(b, c, Total(Exp(c))), {})],
       lists := h.lists[c := [b] + h.lists[c]],
       totals := h.totals[c := h.totals[c] + Total(Exp(c))])
  }

  /** The rest of slab_alloc: the first free item of the first slab on the list. */
  ghost function TakeItem(h: State, c: nat): State
    requires c < |h.lists| && h.lists[c] != [] && h.lists[c][0] in h.slabs && h.slabs[h.lists[c][0]].free != []
  {
    var b := h.lists[c][0];
    var s := h.slabs[b];
    h.(slabs := h.slabs[b := s.(free := s.free[1..], live := s.live + {s.free[0]})],
       lists := if |s.free| == 1 then h.lists[c := h.lists[c][1..]] else h.lists)
  }

  ghost function Without(s: seq<nat>, x: nat): seq<nat> {
    if s == [] then [] else if s[0] == x then s[1..] else [s[0]] + Without(s[1..], x)
  }

  /** slab_free: the item returns to its slab; a slab that was full goes back on the
      list, and a slab that becomes empty is taken off it and its page released. */
  ghost function GiveItem(h: State, b: nat, a: nat): State
    requires b in h.slabs && h.slabs[b].cls < SLAB_CACHE_SIZE && h.slabs[b].cls < |h.lists|
  {
    var s := h.slabs[b];
    var s' := s.(free := [a] + s.free, live := s.live - {a});
    if |s'.free| == 1 then h.(slabs := h.slabs[b := s'], lists := h.lists[s.cls := [b] + h.lists[s.cls]])
    else if |s'.free| == Total(Exp(s.cls))
    then h.(slabs := h.slabs - {b}, lists := h.lists[s.cls := Without(h.lists[s.cls], b)])
    else h.(slabs := h.slabs[b := s'])
  }

  // ---- properties of items ----

  lemma ItemSeqNoDup(b: nat, c: nat, n: nat)
    requires c < SLAB_CACHE_SIZE
    ensures NoDup(ItemSeq(b, c, n)) && |Elems(ItemSeq(b, c, n))| == n
  {
    var s := ItemSeq(b, c, n);
    forall i, j | 0 <= i < j < n ensures s[i] != s[j] {
      ItemsApart(b, Exp(c), i, j);
    }
    NoDupSize(s);
  }

  lemma {:induction false} NoDupSize(s: seq<nat>)
    requires NoDup(s)
    ensures |Elems(s)| == |s|
  {
    if s != [] {
      NoDupSize(s[1..]);
      assert Elems(s) == {s[0]} + Elems(s[1..]);
    }
  }

  /** The free count is the item count exactly when no item is live. */
  lemma AllFree(b: nat, s: Slab)
    requires SlabOk(b, s)
    ensures |s.free| + |s.live| == Total(Exp(s.cls))
  {
    ItemSeqNoDup(b, s.cls, Total(Exp(s.cls)));
    NoDupSize(s.free);
    hide Elems, ItemSeq, NoDup;
  }

  lemma IsItem(b: nat, c: nat, a: nat) returns (i: nat)
    requires c < SLAB_CACHE_SIZE && a in Items(b, c)
    ensures i < Total(Exp(c)) && a == ItemAt(b, Exp(c), i)
  {
    hide Total, ItemAt;
    var n := Total(Exp(c));
    var s := ItemSeq(b, c, n);
    var j :| 0 <= j < |s| && s[j] == a;
    i := j;
  }

  // ---- every step keeps the invariant ----

  lemma AddSlabInv(h: State, c: nat, b: nat)
    requires Inv(h) && c < SLAB_CACHE_SIZE && b !in Pages(h) && PageBase(b)
    ensures Inv(AddSlab(h, c, b))
  {
    var h' := AddSlab(h, c, b);
    var n := Total(Exp(c));
    ItemSeqNoDup(b, c, n);
    hide Total, ItemSeq;
    assert SlabOk(b, h'.slabs[b]);
    forall d: nat | d < SLAB_CACHE_SIZE ensures ListOk(h', d) {
      assert ListOk(h, d);
    }
  }

  lemma TakeItemInv(h: State, c: nat)
    requires Inv(h) && c < SLAB_CACHE_SIZE && h.lists[c] != []
    ensures h.lists[c][0] in h.slabs && h.slabs[h.lists[c][0]].free != []
    ensures Inv(TakeItem(h, c))
  {
    assert ListOk(h, c) && h.lists[c][0] in h.lists[c];
    var b := h.lists[c][0];
    var s := h.slabs[b];
    var h' := TakeItem(h, c);
    assert SlabOk(b, s);
    hide Items;
    TakenSlab(b, s);
    forall d: nat | d < SLAB_CACHE_SIZE ensures ListOk(h', d) {
      assert ListOk(h, d);
    }
  }

  lemma TakenSlab(b: nat, s: Slab)
    requires SlabOk(b, s) && s.free != []
    ensures SlabOk(b, s.(free := s.free[1..], live := s.live + {s.free[0]}))
  {
    assert Elems(s.free) == {s.free[0]} + Elems(s.free[1..]);
    assert s.free[0] !in s.free[1..];
  }

  lemma GivenSlab(b: nat, s: Slab, a: nat)
    requires SlabOk(b, s) && a in s.live
    ensures SlabOk(b, s.(free := [a] + s.free, live := s.live - {a}))
  {
    assert Elems([a] + s.free) == {a} + Elems(s.free);
    assert a !in Elems(s.free);
  }

  lemma {:induction false} WithoutElems(s: seq<nat>, x: nat)
    requires NoDup(s)
    ensures NoDup(Without(s, x)) && forall y :: y in Without(s, x) <==> y in s && y != x
  {
    if s != [] {
      WithoutElems(s[1..], x);
      assert s == [s[0]] + s[1..];
      assert s[0] !in s[1..];
    }
  }

  lemma GiveItemInv(h: State, b: nat, a: nat)
    requires Inv(h) && b in h.slabs && a in h.slabs[b].live
    ensures Inv(GiveItem(h, b, a))
  {
    var s := h.slabs[b];
    assert SlabOk(b, s);
    GivenSlab(b, s, a);
    assert ListOk(h, s.cls);
    WithoutElems(h.lists[s.cls], b);
    hide Items, Elems, Without;
    var h' := GiveItem(h, b, a);
    forall d: nat | d < SLAB_CACHE_SIZE ensures ListOk(h', d) {
      assert ListOk(h, d);
    }
  }
}
