/** The intrusive doubly linked list of kernel/lib/linkedlist.c.

    Memory is a map from byte addresses to the scalar last stored there; memory
    that the model has not written may hold anything. A `Node` at address n has
    `prev` at n and `next` at n + 8; a `LinkedList` at address l has its head node
    at l and its tail node at l + 16. The meaning of a list is the sequence of the
    node addresses between the two sentinels.
  */
module LinkedLists {

  type Cells = map<nat, nat>

  function Rd(m: Cells, a: nat): nat {
    if a in m then m[a] else 0
  }

  function PrevOf(m: Cells, n: nat): nat { Rd(m, n) }
  function NextOf(m: Cells, n: nat): nat { Rd(m, n + 8) }
  function TailOf(list: nat): nat { list + 16 }

  /** Head sentinel, nodes, tail sentinel. */
  ghost function Chain(list: nat, s: seq<nat>): seq<nat> {
    [list] + s + [TailOf(list)]
  }

  predicate Apart(a: nat, b: nat) {
    a + 16 <= b || b + 16 <= a
  }

  ghost predicate AllApart(c: seq<nat>) {
    forall i, j :: 0 <= i < j < |c| ==> Apart(c[i], c[j])
  }

  /** next and prev are mutually inverse along the chain. */
  ghost predicate Linked(m: Cells, c: seq<nat>) {
    forall i :: 0 <= i < |c| - 1 ==> Follows(m, c[i], c[i + 1])
  }

  predicate Follows(m: Cells, a: nat, b: nat) {
    NextOf(m, a) == b && PrevOf(m, b) == a
  }

  ghost predicate IsList(m: Cells, list: nat, s: seq<nat>) {
    AllApart(Chain(list, s)) && Linked(m, Chain(list, s))
    && PrevOf(m, list) == 0 && NextOf(m, TailOf(list)) == 0
  }

  /** a is one of the two cells of node n. */
  predicate InNode(a: nat, n: nat) {
    a == n || a == n + 8
  }

  /** Memory outside the given nodes is unchanged. */
  ghost predicate OnlyNodes(m: Cells, m': Cells, nodes: seq<nat>) {
    forall a: nat :: (forall n :: n in nodes ==> !InNode(a, n)) ==> Rd(m', a) == Rd(m, a)
  }

  ghost predicate SameOutside(m: Cells, m': Cells, lo: nat, hi: nat) {
    forall a: nat :: !(lo <= a < hi) ==> Rd(m', a) == Rd(m, a)
  }

  ghost predicate Zero(m: Cells, lo: nat, hi: nat) {
    forall a: nat :: lo <= a < hi ==> Rd(m, a) == 0
  }

  ghost function InsertAt(s: seq<nat>, k: nat, x: nat): seq<nat>
    requires k <= |s|
  {
    s[..k] + [x] + s[k..]
  }

  ghost function RemoveAt(s: seq<nat>, k: nat): seq<nat>
    requires k < |s|
  {
    s[..k] + s[k + 1..]
  }

  /** The four stores of insert_before. */
  ghost function Inserted(m: Cells, before: nat, node: nat): Cells {
    var p := PrevOf(m, before);
    m[node + 8 := before][node := p][p + 8 := node][before := node]
  }

  /** The two stores of list_remove. */
  ghost function Removed(m: Cells, node: nat): Cells {
    m[PrevOf(m, node) + 8 := NextOf(m, node)][NextOf(m, node) := PrevOf(m, node)]
  }

  lemma ChainAt(list: nat, s: seq<nat>, i: nat)
    requires i < |s| + 2
    ensures Chain(list, s)[i] == if i == 0 then list else if i <= |s| then s[i - 1] else TailOf(list)
  {}

  ghost predicate FreshNode(list: nat, s: seq<nat>, node: nat) {
    forall n :: n in Chain(list, s) ==> Apart(node, n)
  }

  lemma InsertedLinked(m: Cells, c: seq<nat>, k: nat, node: nat)
    requires k + 1 < |c| && AllApart(c) && Linked(m, c)
    requires forall n :: n in c ==> Apart(node, n)
    ensures Linked(Inserted(m, c[k + 1], node), InsertAt(c, k + 1, node))
  {
    var c' := InsertAt(c, k + 1, node);
    var m' := Inserted(m, c[k + 1], node);
    assert Follows(m, c[k], c[k + 1]);
    forall i | 0 <= i < |c'| - 1 ensures Follows(m', c'[i], c'[i + 1]) {
      if i < k {
        assert c'[i] == c[i] && c'[i + 1] == c[i + 1];
        InsertedElsewhere(m, c, k, node, i);
      } else if i > k + 1 {
        assert c'[i] == c[i - 1] && c'[i + 1] == c[i];
        InsertedElsewhere(m, c, k, node, i - 1);
      } else {
        assert Apart(node, c[k]) && Apart(node, c[k + 1]) && Apart(c[k], c[k + 1]);
      }
    }
  }

  lemma InsertedElsewhere(m: Cells, c: seq<nat>, k: nat, node: nat, i: nat)
    requires k + 1 < |c| && i + 1 < |c| && i != k && AllApart(c) && Linked(m, c)
    requires forall n :: n in c ==> Apart(node, n)
    ensures Follows(Inserted(m, c[k + 1], node), c[i], c[i + 1])
  {
    assert Follows(m, c[k], c[k + 1]) && Follows(m, c[i], c[i + 1]);
    assert Apart(node, c[i]) && Apart(node, c[i + 1]);
    assert i < k ==> Apart(c[i], c[k]);
    assert i > k ==> Apart(c[k], c[i]);
    assert i + 1 < k + 1 ==> Apart(c[i + 1], c[k + 1]);
    assert i + 1 > k + 1 ==> Apart(c[k + 1], c[i + 1]);
  }

  lemma InsertedApart(c: seq<nat>, k: nat, node: nat)
    requires k < |c| && AllApart(c) && forall n :: n in c ==> Apart(node, n)
    ensures AllApart(InsertAt(c, k + 1, node))
  {
    var c' := InsertAt(c, k + 1, node);
    forall i, j | 0 <= i < j < |c'| ensures Apart(c'[i], c'[j]) {
      var i' := if i <= k then i else i - 1;
      var j' := if j <= k then j else j - 1;
      assert i != k + 1 ==> c'[i] == c[i'];
      assert j != k + 1 ==> c'[j] == c[j'];
      assert c'[k + 1] == node && Apart(node, c[i']) && Apart(node, c[j']);
      assert i != k + 1 && j != k + 1 ==> Apart(c[i'], c[j']);
    }
  }

  lemma InsertKeepsList(m: Cells, list: nat, s: seq<nat>, k: nat, node: nat)
    requires IsList(m, list, s) && k <= |s| && FreshNode(list, s, node)
    ensures var before := Chain(list, s)[k + 1];
            var m' := Inserted(m, before, node);
            IsList(m', list, InsertAt(s, k, node))
            && OnlyNodes(m, m', [Chain(list, s)[k], node, before])
  {
    var c := Chain(list, s);
    InsertedLinked(m, c, k, node);
    InsertedApart(c, k, node);
    assert InsertAt(c, k + 1, node) == Chain(list, InsertAt(s, k, node));
    assert Follows(m, c[k], c[k + 1]);
    assert Apart(list, TailOf(list)) && Apart(node, c[0]) && Apart(node, c[|c| - 1]);
    InsertedEnds(m, c, k, node);
  }

  lemma InsertedEnds(m: Cells, c: seq<nat>, k: nat, node: nat)
    requires k + 1 < |c| && AllApart(c) && Follows(m, c[k], c[k + 1])
    requires forall n :: n in c ==> Apart(node, n)
    ensures var m' := Inserted(m, c[k + 1], node);
            PrevOf(m', c[0]) == PrevOf(m, c[0]) && NextOf(m', c[|c| - 1]) == NextOf(m, c[|c| - 1])
            && OnlyNodes(m, m', [c[k], node, c[k + 1]])
  {
    var m' := Inserted(m, c[k + 1], node);
    assert Apart(node, c[0]) && Apart(node, c[|c| - 1]);
    assert k > 0 ==> Apart(c[0], c[k]);
    assert Apart(c[0], c[k + 1]);
    assert k + 1 < |c| - 1 ==> Apart(c[k + 1], c[|c| - 1]);
    assert Apart(c[k], c[|c| - 1]);
    var nodes := [c[k], node, c[k + 1]];
    assert nodes[0] in nodes && nodes[1] in nodes && nodes[2] in nodes;
  }

  lemma RemovedLinked(m: Cells, c: seq<nat>, k: nat)
    requires 0 < k < |c| - 1 && AllApart(c) && Linked(m, c)
    ensures AllApart(RemoveAt(c, k)) && Linked(Removed(m, c[k]), RemoveAt(c, k))
  {
    var c' := RemoveAt(c, k);
    var m' := Removed(m, c[k]);
    assert Follows(m, c[k - 1], c[k]) && Follows(m, c[k], c[k + 1]);
    forall i | 0 <= i < |c'| - 1 ensures Follows(m', c'[i], c'[i + 1]) {
      if i < k - 1 {
        assert Follows(m, c[i], c[i + 1]);
      } else if i > k - 1 {
        assert Follows(m, c[i + 1], c[i + 2]);
      }
    }
  }

  lemma RemoveKeepsList(m: Cells, list: nat, s: seq<nat>, k: nat)
    requires IsList(m, list, s) && k < |s|
    ensures var m' := Removed(m, s[k]);
            IsList(m', list, RemoveAt(s, k))
            && OnlyNodes(m, m', [Chain(list, s)[k], Chain(list, s)[k + 2]])
  {
    var c := Chain(list, s);
    ChainAt(list, s, k + 1);
    RemovedLinked(m, c, k + 1);
    assert RemoveAt(c, k + 1) == Chain(list, RemoveAt(s, k));
    RemovedEnds(m, c, k + 1);
  }

  lemma RemovedEnds(m: Cells, c: seq<nat>, k: nat)
    requires 0 < k < |c| - 1 && AllApart(c) && Linked(m, c)
    ensures var m' := Removed(m, c[k]);
            PrevOf(m', c[0]) == PrevOf(m, c[0]) && NextOf(m', c[|c| - 1]) == NextOf(m, c[|c| - 1])
            && OnlyNodes(m, m', [c[k - 1], c[k + 1]])
  {
    assert Follows(m, c[k - 1], c[k]) && Follows(m, c[k], c[k + 1]);
    assert k - 1 > 0 ==> Apart(c[0], c[k - 1]);
    assert Apart(c[0], c[k + 1]);
    assert k + 1 < |c| - 1 ==> Apart(c[k + 1], c[|c| - 1]);
    assert Apart(c[k - 1], c[|c| - 1]);
    var nodes := [c[k - 1], c[k + 1]];
    assert nodes[0] in nodes && nodes[1] in nodes;
  }

  /** The words of a list: each node's address is stored as `next` (offset 8) of the one before
      and as `prev` (offset 0) of the one behind it, from the head at the list's address to the
      tail 16 bytes on; the outer ends hold NULL. */
  lemma ListWords(m: Cells, list: nat, s: seq<nat>)
    requires IsList(m, list, s)
    ensures Rd(m, list) == 0 && Rd(m, list + 24) == 0
    ensures Rd(m, list + 8) == if s == [] then list + 16 else s[0]
    ensures Rd(m, list + 16) == if s == [] then list else s[|s| - 1]
    ensures forall i :: 0 <= i < |s| ==> Rd(m, s[i] + 8) == if i + 1 < |s| then s[i + 1] else list + 16
    ensures forall i :: 0 <= i < |s| ==> Rd(m, s[i]) == if i > 0 then s[i - 1] else list
  {
    var c := Chain(list, s);
    assert Follows(m, c[0], c[1]) && Follows(m, c[|s|], c[|s| + 1]);
    forall i | 0 <= i < |s|
      ensures Rd(m, s[i] + 8) == if i + 1 < |s| then s[i + 1] else list + 16
      ensures Rd(m, s[i]) == if i > 0 then s[i - 1] else list
    {
      assert Follows(m, c[i], c[i + 1]) && Follows(m, c[i + 1], c[i + 2]);
    }
  }

  /** A list survives any change of memory outside its nodes. */
  lemma ListFrame(m: Cells, m': Cells, list: nat, s: seq<nat>)
    requires IsList(m, list, s)
    requires forall n, a: nat :: n in Chain(list, s) && InNode(a, n) ==> Rd(m', a) == Rd(m, a)
    ensures IsList(m', list, s)
  {
    var c := Chain(list, s);
    assert list in c && TailOf(list) in c;
    assert InNode(list, list) && InNode(TailOf(list) + 8, TailOf(list));
    forall i | 0 <= i < |c| - 1 ensures Follows(m', c[i], c[i + 1]) {
      assert Follows(m, c[i], c[i + 1]) && InNode(c[i] + 8, c[i]) && InNode(c[i + 1], c[i + 1]);
      assert c[i] in c && c[i + 1] in c;
    }
  }

  /** list_init makes an empty list. */
  lemma EmptyIsList(m: Cells, list: nat)
    requires PrevOf(m, list) == 0 && NextOf(m, list) == TailOf(list)
    requires PrevOf(m, TailOf(list)) == list && NextOf(m, TailOf(list)) == 0
    ensures IsList(m, list, [])
  {
    assert Chain(list, []) == [list, TailOf(list)];
  }

  ghost predicate FirstMatch(s: seq<nat>, con: (nat, int) -> bool, arg: int, i: nat) {
    i < |s| && con(s[i], arg) && forall j :: 0 <= j < i ==> !con(s[j], arg)
  }

  class Ram {
    var cells: Cells

    constructor (cells: Cells)
      ensures this.cells == cells
    {
      this.cells := cells;
    }

    method Load(a: nat) returns (v: nat)
      ensures v == Rd(cells, a)
    {
      v := Rd(cells, a);
    }

    method Store(a: nat, v: nat)
      modifies this
      ensures cells == old(cells)[a := v]
    {
      cells := cells[a := v];
    }

    /** The memory [lo, hi) becomes other memory, with contents of its own. */
    method Remap(lo: nat, hi: nat)
      modifies this
      ensures SameOutside(old(cells), cells, lo, hi)
    {
      var other: Cells := *;
      cells := (map a: nat | a in cells && !(lo <= a < hi) :: cells[a])
               + (map a: nat | a in other && lo <= a < hi :: other[a]);
    }

    /** memset(dst, 0, size), one byte at a time. Every scalar in the range then reads
        as 0; the allocator never sets another value. */
    method Memset(dst: nat, value: nat, size: nat)
      requires value == 0
      modifies this
      ensures SameOutside(old(cells), cells, dst, dst + size)
      ensures Zero(cells, dst, dst + size)
    {
      var d := dst;
      var n := size;
      while n > 0
        invariant n <= size && d == dst + (size - n)
        invariant SameOutside(old(cells), cells, dst, dst + size)
        invariant Zero(cells, dst, d)
      {
        ghost var was := cells;
        cells := cells[d := value];
        assert forall a: nat :: Rd(cells, a) == if a == d then 0 else Rd(was, a);
        d := d + 1;
        n := n - 1;
      }
    }

    method ListInit(list: nat)
      modifies this
      ensures IsList(cells, list, []) && OnlyNodes(old(cells), cells, [list, TailOf(list)])
    {
      Store(list, 0);
      Store(list + 8, TailOf(list));
      Store(TailOf(list), list);
      Store(TailOf(list) + 8, 0);
      EmptyIsList(cells, list);
      ghost var nodes := [list, TailOf(list)];
      assert nodes[0] in nodes && nodes[1] in nodes;
    }

    method InsertBefore(before: nat, node: nat, ghost list: nat, ghost s: seq<nat>, ghost k: nat)
      requires IsList(cells, list, s) && k <= |s| && before == Chain(list, s)[k + 1]
      requires FreshNode(list, s, node)
      modifies this
      ensures IsList(cells, list, InsertAt(s, k, node))
      ensures OnlyNodes(old(cells), cells, [Chain(list, s)[k], node, before])
    {
      ghost var m := cells;
      InsertKeepsList(m, list, s, k, node);
      assert Apart(node, before);
      hide IsList, OnlyNodes, Chain;
      Store(node + 8, before);
      var prev := Load(before);
      Store(node, prev);
      prev := Load(before);
      Store(prev + 8, node);
      Store(before, node);
      assert cells == Inserted(m, before, node);
    }

    method ListRemove(node: nat, ghost list: nat, ghost s: seq<nat>, ghost k: nat)
      requires IsList(cells, list, s) && k < |s| && node == s[k]
      modifies this
      ensures IsList(cells, list, RemoveAt(s, k))
      ensures OnlyNodes(old(cells), cells, [Chain(list, s)[k], Chain(list, s)[k + 2]])
    {
      ghost var m := cells;
      RemoveKeepsList(m, list, s, k);
      NeighboursApart(m, list, s, k);
      hide IsList, OnlyNodes, Chain;
      var next := Load(node + 8);
      var prev := Load(node);
      Store(prev + 8, next);
      next := Load(node + 8);
      prev := Load(node);
      Store(next, prev);
      assert cells == Removed(m, node);
    }

    method ListPush(list: nat, node: nat, ghost s: seq<nat>)
      requires IsList(cells, list, s) && FreshNode(list, s, node)
      modifies this
      ensures IsList(cells, list, [node] + s)
      ensures OnlyNodes(old(cells), cells, [list, node, Chain(list, s)[1]])
    {
      HeadNext(cells, list, s);
      assert InsertAt(s, 0, node) == [node] + s;
      hide IsList, OnlyNodes, FreshNode;
      var first := Load(list + 8);
      InsertBefore(first, node, list, s, 0);
    }

    method ListAppend(list: nat, node: nat, ghost s: seq<nat>)
      requires IsList(cells, list, s) && FreshNode(list, s, node)
      modifies this
      ensures IsList(cells, list, s + [node])
      ensures OnlyNodes(old(cells), cells, [Chain(list, s)[|s|], node, TailOf(list)])
    {
      assert InsertAt(s, |s|, node) == s + [node];
      hide IsList, OnlyNodes, FreshNode;
      InsertBefore(TailOf(list), node, list, s, |s|);
    }

    /** NULL is 0. */
    method ListPop(list: nat, ghost s: seq<nat>) returns (node: nat)
      requires IsList(cells, list, s)
      modifies this
      ensures s == [] ==> node == 0 && cells == old(cells)
      ensures s != [] ==> node == s[0] && IsList(cells, list, s[1..])
                          && OnlyNodes(old(cells), cells, [list, Chain(list, s)[2]])
    {
      HeadNext(cells, list, s);
      hide IsList, OnlyNodes;
      var first := Load(list + 8);
      if first == TailOf(list) {
        return 0;
      }
      assert RemoveAt(s, 0) == s[1..];
      ListRemove(first, list, s, 0);
      node := first;
    }

    method ListEmpty(list: nat, ghost s: seq<nat>) returns (empty: bool)
      requires IsList(cells, list, s)
      ensures empty <==> s == []
    {
      HeadNext(cells, list, s);
      var first := Load(list + 8);
      empty := first == TailOf(list);
    }

    /** list_match: the first node that satisfies the condition. */
    method ListMatch(list: nat, con: (nat, int) -> bool, arg: int, ghost s: seq<nat>) returns (p: nat)
      requires IsList(cells, list, s)
      ensures (exists i: nat :: FirstMatch(s, con, arg, i) && p == s[i])
              || (p == 0 && forall i :: 0 <= i < |s| ==> !con(s[i], arg))
    {
      hide IsList;
      ChainNext(cells, list, s, 0);
      p := Load(list + 8);
      ghost var at: nat := 0;
      while p != TailOf(list)
        invariant at <= |s| && p == Chain(list, s)[at + 1] && (p == TailOf(list) <==> at == |s|)
        invariant forall i :: 0 <= i < at ==> !con(s[i], arg)
        decreases |s| - at
      {
        if con(p, arg) {
          assert FirstMatch(s, con, arg, at);
          return;
        }
        ChainNext(cells, list, s, at + 1);
        p := Load(p + 8);
        at := at + 1;
      }
      p := 0;
    }

    method ListFind(list: nat, node: nat, ghost s: seq<nat>) returns (p: nat)
      requires IsList(cells, list, s)
      ensures p == if node in s then node else 0
    {
      ghost var at := 0;
      hide IsList;
      ChainNext(cells, list, s, 0);
      p := Load(list + 8);
      while p != TailOf(list)
        invariant at <= |s| && p == Chain(list, s)[at + 1] && (p == TailOf(list) <==> at == |s|)
        invariant node !in s[..at]
        decreases |s| - at
      {
        if p == node {
          return;
        }
        ChainNext(cells, list, s, at + 1);
        p := Load(p + 8);
        at := at + 1;
      }
      p := 0;
    }

    /** list_len counts in 32 bits. */
    method ListLen(list: nat, ghost s: seq<nat>) returns (len: nat)
      requires IsList(cells, list, s)
      ensures len == |s| % 0x1_0000_0000
    {
      ghost var at := 0;
      hide IsList;
      len := 0;
      ChainNext(cells, list, s, 0);
      var p := Load(list + 8);
      while p != TailOf(list)
        invariant at <= |s| && p == Chain(list, s)[at + 1] && (p == TailOf(list) <==> at == |s|)
        invariant len == at % 0x1_0000_0000
        decreases |s| - at
      {
        len := (len + 1) % 0x1_0000_0000;
        ChainNext(cells, list, s, at + 1);
        p := Load(p + 8);
        at := at + 1;
      }
    }
  }

  lemma NeighboursApart(m: Cells, list: nat, s: seq<nat>, k: nat)
    requires IsList(m, list, s) && k < |s|
    ensures PrevOf(m, s[k]) == Chain(list, s)[k] && NextOf(m, s[k]) == Chain(list, s)[k + 2]
    ensures Apart(s[k], PrevOf(m, s[k])) && Apart(s[k], NextOf(m, s[k]))
  {
    var c := Chain(list, s);
    assert c[k + 1] == s[k];
    assert Follows(m, c[k], c[k + 1]) && Follows(m, c[k + 1], c[k + 2]);
    assert Apart(c[k], c[k + 1]) && Apart(c[k + 1], c[k + 2]);
  }

  lemma HeadNext(m: Cells, list: nat, s: seq<nat>)
    requires IsList(m, list, s)
    ensures NextOf(m, list) == Chain(list, s)[1]
    ensures NextOf(m, list) == TailOf(list) <==> s == []
    ensures s != [] ==> NextOf(m, list) == s[0]
  {
    ChainNext(m, list, s, 0);
  }

  /** Following next once from any chain position but the last. */
  lemma ChainNext(m: Cells, list: nat, s: seq<nat>, i: nat)
    requires IsList(m, list, s) && i <= |s|
    ensures NextOf(m, Chain(list, s)[i]) == Chain(list, s)[i + 1]
    ensures Chain(list, s)[i + 1] == TailOf(list) <==> i == |s|
    ensures i < |s| ==> Chain(list, s)[i + 1] == s[i]
  {
    var c := Chain(list, s);
    assert Follows(m, c[i], c[i + 1]);
    if i < |s| {
      assert Apart(c[i + 1], c[|s| + 1]);
    }
  }

  /** Memory determines the sequence: a list address has one meaning. */
  lemma ListUnique(m: Cells, list: nat, s: seq<nat>, t: seq<nat>)
    requires IsList(m, list, s) && IsList(m, list, t)
    ensures s == t
  {
    hide IsList, Chain;
    if |s| <= |t| {
      SamePrefix(m, list, s, t, |s|);
      ChainNext(m, list, s, |s|);
      ChainNext(m, list, t, |s|);
    } else {
      SamePrefix(m, list, s, t, |t|);
      ChainNext(m, list, s, |t|);
      ChainNext(m, list, t, |t|);
    }
  }

  lemma {:induction false} SamePrefix(m: Cells, list: nat, s: seq<nat>, t: seq<nat>, i: nat)
    requires IsList(m, list, s) && IsList(m, list, t) && i <= |s| && i <= |t|
    ensures s[..i] == t[..i] && Chain(list, s)[i] == Chain(list, t)[i]
  {
    if i > 0 {
      SamePrefix(m, list, s, t, i - 1);
      ChainNext(m, list, s, i - 1);
      ChainNext(m, list, t, i - 1);
      ChainAt(list, s, i);
      ChainAt(list, t, i);
      hide IsList, Chain;
      assert s[..i] == s[..i - 1] + [s[i - 1]] && t[..i] == t[..i - 1] + [t[i - 1]];
    }
  }
}
