/** list_sort: an insertion sort that relinks the nodes in place. */
module ListSorting {
  import opened StableSorting
  import opened Lists

  /** The node with index m moved in front of the one with index q. */
  function Moved(nodes: seq<Node>, m: nat, q: nat): seq<Node>
    requires q < m < |nodes|
  {
    nodes[..q] + [nodes[m]] + nodes[q..m] + nodes[m + 1..]
  }

  lemma {:induction false} DistinctMoved(nodes: seq<Node>, m: nat, q: nat)
    requires q < m < |nodes| && Distinct(nodes)
    ensures Distinct(Moved(nodes, m, q))
  {
    forall i, j
      ensures Differ(Moved(nodes, m, q), i, j)
    {
      var i0, j0 := Origin(m, q, i), Origin(m, q, j);
      assert Differ(nodes, i0, j0) && Differ(nodes, j0, i0);
    }
  }

  /** Where the node that is at i after the move was before. */
  function Origin(m: nat, q: nat, i: int): int {
    if i == q then m else if q < i <= m then i - 1 else i
  }

  /** Which slots keep their place when the node with index m is moved. */
  lemma {:induction false} MovedSlots(nodes: seq<Node>, m: nat, q: nat)
    requires q < m < |nodes|
    ensures SlotAt(Moved(nodes, m, q), m + 1) == SlotAt(nodes, m)
    ensures if q == m - 1 then SlotAt(Moved(nodes, m, q), m - 1) == SlotAt(nodes, m - 1)
            else SlotAt(Moved(nodes, m, q), m) == SlotAt(nodes, m - 1)
  {}

  /** *pp := v. */
  method Write(l: List, pp: Slot, v: Node?)
    modifies l`head, Owner(pp)
    ensures l.head == if pp.HeadSlot? then v else old(l.head)
    ensures pp.NextSlot? ==> pp.node.next == v
  {
    match pp
    case HeadSlot => l.head := v;
    case NextSlot(n) => n.next := v;
  }

  /** What the node with index i points to once the node with index m has been moved in front of the one with q. */
  function NextMoved(nodes: seq<Node>, m: nat, q: nat, i: nat): Node?
    requires q < m < |nodes|
  {
    if i == m then nodes[q] else if i == m - 1 then NodeAt(nodes, m + 1) else if i + 1 == q then nodes[m]
    else NodeAt(nodes, i + 1)
  }

  ghost predicate PointsMoved(nodes: seq<Node>, m: nat, q: nat, i: int)
    requires q < m < |nodes|
    reads nodes
  {
    0 <= i < |nodes| ==> nodes[i].next == NextMoved(nodes, m, q, i)
  }

  lemma {:induction false} MovedChained(nodes: seq<Node>, m: nat, q: nat)
    requires q < m < |nodes| && Distinct(nodes) && forall i :: PointsMoved(nodes, m, q, i)
    ensures Chained(Moved(nodes, m, q))
  {
    DistinctMoved(nodes, m, q);
    forall j
      ensures Points(Moved(nodes, m, q), j)
    {
      assert PointsMoved(nodes, m, q, Origin(m, q, j));
    }
  }

  /** The three writes. */
  method Relink(l: List, pp: Slot, ppPos: Slot, x: Node, y: Node?, ghost m: nat, ghost q: nat, ghost all: seq<Node>)
    requires forall n :: n in l.nodes ==> n in all
    requires l.Woven() && q < m < |l.nodes| && pp == SlotAt(l.nodes, m) && ppPos == SlotAt(l.nodes, q)
    requires x == l.nodes[m] && y == l.nodes[q]
    modifies l`head, all
    ensures l.head == (if q == 0 then x else old(l.head)) && forall i :: PointsMoved(l.nodes, m, q, i)
  {
    Apart(l.nodes, m);
    Apart(l.nodes, m - 1);
    if q > 0 {
      Apart(l.nodes, q - 1);
    }
    assert Points(l.nodes, m);
    assert l.nodes[m] in all && l.nodes[m - 1] in all && (q > 0 ==> l.nodes[q - 1] in all);
    var pTmp := x.next;
    x.next := y;
    Write(l, ppPos, x);
    Write(l, pp, pTmp);
    forall i
      ensures PointsMoved(l.nodes, m, q, i)
    {
      assert old(Points(l.nodes, i));
    }
  }

  /** Takes the node behind pp and puts it behind ppPos. */
  method MoveBefore(l: List, pp: Slot, ppPos: Slot, ghost m: nat, ghost q: nat, ghost all: seq<Node>)
    requires forall n :: n in l.nodes ==> n in all
    requires l.Woven() && q < m < |l.nodes| && pp == SlotAt(l.nodes, m) && ppPos == SlotAt(l.nodes, q)
    modifies l`head, l`nodes, all
    ensures l.Woven() && l.nodes == Moved(old(l.nodes), m, q)
  {
    var x := l.Read(pp, m);
    var y := l.Read(ppPos, q);
    Relink(l, pp, ppPos, x, y, m, q, all);
    MovedChained(l.nodes, m, q);
    l.nodes := Moved(l.nodes, m, q);
  }

  /** The same, with the slot in front of the node that comes to stand at m. */
  method MoveAndFollow(l: List, pp: Slot, ppPrev: Slot, ppPos: Slot, ghost m: nat, ghost q: nat, ghost all: seq<Node>)
    returns (ppPrev': Slot)
    requires forall n :: n in l.nodes ==> n in all
    requires l.Woven() && q < m < |l.nodes| && pp == SlotAt(l.nodes, m) && ppPos == SlotAt(l.nodes, q)
    requires ppPrev == SlotAt(l.nodes, m - 1)
    modifies l`head, l`nodes, all
    ensures l.Woven() && l.nodes == Moved(old(l.nodes), m, q)
    ensures pp == SlotAt(l.nodes, m + 1) && ppPrev' == SlotAt(l.nodes, m)
  {
    if q != m - 1 {
      SlotsDiffer(l.nodes, q, m - 1);
    }
    MovedSlots(l.nodes, m, q);
    MoveBefore(l, pp, ppPos, m, q, all);
    ppPrev' := ppPrev;
    if ppPrev == ppPos {
      var n := l.Read(ppPrev, m - 1);
      ppPrev' := NextSlot(n);
    }
  }

  /** The nodes rearranged, equal ones in their old order, with the first m sorted. */
  ghost predicate Sorting(all: seq<Node>, nodes: seq<Node>, m: nat, cmp: (int, int) -> int) {
    m <= |nodes| && SameLikes(all, nodes, DATA, cmp) && Sorted(nodes[..m], DATA, cmp)
  }

  lemma {:induction false} BelowAll(nodes: seq<Node>, m: nat, q: nat, x: int, cmp: (int, int) -> int)
    requires q < m <= |nodes| && Consistent(cmp) && Sorted(nodes[..m], DATA, cmp) && cmp(x, nodes[q].data) < 0
    ensures forall j :: q <= j < m ==> cmp(x, nodes[j].data) < 0
  {
    forall j | q <= j < m
      ensures cmp(x, nodes[j].data) < 0
    {
      assert InOrder(nodes[..m], DATA, cmp, q, j);
      Below(x, nodes[q].data, nodes[j].data, cmp);
    }
  }

  lemma {:induction false} AboveAll(nodes: seq<Node>, m: nat, x: int, cmp: (int, int) -> int)
    requires 0 < m <= |nodes| && Consistent(cmp) && Sorted(nodes[..m], DATA, cmp) && cmp(x, nodes[m - 1].data) >= 0
    ensures forall j :: 0 <= j < m ==> cmp(nodes[j].data, x) <= 0
  {
    assert cmp(nodes[m - 1].data, x) <= 0;
    forall j | 0 <= j < m
      ensures cmp(nodes[j].data, x) <= 0
    {
      assert InOrder(nodes[..m], DATA, cmp, j, m - 1);
    }
  }

  /** The next node is no smaller than the last one in order: it stays. */
  lemma {:induction false} Stays(all: seq<Node>, nodes: seq<Node>, m: nat, cmp: (int, int) -> int)
    requires Consistent(cmp) && Sorting(all, nodes, m, cmp) && 0 < m < |nodes|
    requires cmp(nodes[m].data, nodes[m - 1].data) >= 0
    ensures Sorting(all, nodes, m + 1, cmp)
  {
    AboveAll(nodes, m, nodes[m].data, cmp);
    var front := nodes[..m + 1];
    forall i, j
      ensures InOrder(front, DATA, cmp, i, j)
    {
      assert InOrder(nodes[..m], DATA, cmp, i, j);
    }
  }

  /** The next node goes in front of the first greater one. */
  lemma {:induction false} Moves(all: seq<Node>, nodes: seq<Node>, m: nat, q: nat, cmp: (int, int) -> int)
    requires Consistent(cmp) && Sorting(all, nodes, m, cmp) && q < m < |nodes|
    requires cmp(nodes[m].data, nodes[q].data) < 0 && forall j :: 0 <= j < q ==> cmp(nodes[m].data, nodes[j].data) >= 0
    ensures Sorting(all, Moved(nodes, m, q), m + 1, cmp)
  {
    var x := nodes[m];
    BelowAll(nodes, m, q, x.data, cmp);
    MoveKeepsLikes(nodes[..q], nodes[q..m], x, nodes[m + 1..], DATA, cmp);
    assert nodes == nodes[..q] + nodes[q..m] + [x] + nodes[m + 1..];
    forall d
      ensures Like(Moved(nodes, m, q), DATA, cmp, d) == Like(all, DATA, cmp, d)
    {
      assert Like(Moved(nodes, m, q), DATA, cmp, d) == Like(nodes, DATA, cmp, d);
    }
    MovedSorted(nodes, m, q, cmp);
  }

  lemma {:induction false} MovedSorted(nodes: seq<Node>, m: nat, q: nat, cmp: (int, int) -> int)
    requires Consistent(cmp) && q < m < |nodes| && Sorted(nodes[..m], DATA, cmp)
    requires forall j :: q <= j < m ==> cmp(nodes[m].data, nodes[j].data) < 0
    requires forall j :: 0 <= j < q ==> cmp(nodes[m].data, nodes[j].data) >= 0
    ensures Sorted(Moved(nodes, m, q)[..m + 1], DATA, cmp)
  {
    var front := Moved(nodes, m, q)[..m + 1];
    forall i, j
      ensures InOrder(front, DATA, cmp, i, j)
    {
      if 0 <= i < j <= m {
        assert front[i] == nodes[Origin(m, q, i)] && front[j] == nodes[Origin(m, q, j)];
        assert InOrder(nodes[..m], DATA, cmp, Origin(m, q, i), Origin(m, q, j));
      }
    }
  }

  /** The slot of the first node that is greater than x. */
  method FindPlace(l: List, x: Data, cmp: (int, int) -> int, ghost m: nat) returns (ppPos: Slot, ghost q: nat)
    requires l.Woven() && 0 < m <= |l.nodes| && cmp(x, l.nodes[m - 1].data) < 0
    ensures q < m && ppPos == SlotAt(l.nodes, q) && cmp(x, l.nodes[q].data) < 0
    ensures forall j :: 0 <= j < q ==> cmp(x, l.nodes[j].data) >= 0
  {
    ppPos, q := HeadSlot, 0;
    var p := l.Read(ppPos, q);
    while cmp(x, p.data) >= 0
      invariant q < m && ppPos == SlotAt(l.nodes, q) && p == l.nodes[q]
      invariant forall j :: 0 <= j < q ==> cmp(x, l.nodes[j].data) >= 0
      decreases m - q
    {
      ppPos, q := NextSlot(p), q + 1;
      p := l.Read(ppPos, q);
    }
  }

  /** Moves p, behind pp, to its place among the first m nodes; ppPrev still ends up in front of pp. */
  method SortMove(l: List, pp: Slot, ppPrev: Slot, p: Node, cmp: (int, int) -> int, ghost m: nat, ghost all: seq<Node>)
    returns (ppPrev': Slot)
    requires l.Woven() && Consistent(cmp) && Sorting(all, l.nodes, m, cmp) && 0 < m < |l.nodes|
    requires pp == SlotAt(l.nodes, m) && ppPrev == SlotAt(l.nodes, m - 1) && p == l.nodes[m]
    requires cmp(p.data, l.nodes[m - 1].data) < 0 && forall n :: n in l.nodes ==> n in all
    modifies l`head, l`nodes, all
    ensures l.Woven() && Sorting(all, l.nodes, m + 1, cmp) && |l.nodes| == |old(l.nodes)|
    ensures pp == SlotAt(l.nodes, m + 1) && ppPrev' == SlotAt(l.nodes, m)
    ensures forall n :: n in l.nodes ==> n in all
  {
    ghost var nodes := l.nodes;
    var ppPos;
    ghost var k;
    ppPos, k := FindPlace(l, p.data, cmp, m);
    Moves(all, nodes, m, k, cmp);
    ppPrev' := MoveAndFollow(l, pp, ppPrev, ppPos, m, k, all);
  }

  /** One turn of the sort. */
  method SortStep(l: List, pp: Slot, ppPrev: Slot, p: Node, cmp: (int, int) -> int, ghost m: nat, ghost all: seq<Node>)
    returns (pp': Slot, ppPrev': Slot)
    requires l.Woven() && Consistent(cmp) && Sorting(all, l.nodes, m, cmp) && 0 < m < |l.nodes|
    requires pp == SlotAt(l.nodes, m) && ppPrev == SlotAt(l.nodes, m - 1) && p == l.nodes[m]
    requires forall n :: n in l.nodes ==> n in all
    modifies l`head, l`nodes, all
    ensures l.Woven() && Sorting(all, l.nodes, m + 1, cmp) && |l.nodes| == |old(l.nodes)|
    ensures pp' == SlotAt(l.nodes, m + 1) && ppPrev' == SlotAt(l.nodes, m)
    ensures forall n :: n in l.nodes ==> n in all
  {
    var q := l.Read(ppPrev, m - 1);
    if cmp(p.data, q.data) < 0 {
      ppPrev' := SortMove(l, pp, ppPrev, p, cmp, m, all);
      pp' := pp;
    } else {
      Stays(all, l.nodes, m, cmp);
      pp', ppPrev' := NextSlot(p), pp;
    }
  }

  /** Every iterator begins again. */
  method ResetIterators(l: List)
    requires l.Linked() && DistinctIterators(l.iNext)
    modifies l.iNext
    ensures l.Valid() && forall i :: i in l.iNext ==> i.Fresh(l.nodes)
  {
    var j := 0;
    while j < |l.iNext|
      invariant 0 <= j <= |l.iNext| && AllGood(l.iNext, 0, j, l.nodes)
      invariant forall k :: 0 <= k < j ==> l.iNext[k].Fresh(l.nodes)
    {
      OtherIterators(l.iNext, j);
      l.iNext[j].Reset(l.head, l.nodes);
      j := j + 1;
    }
  }

  /**
   * list_sort: the same nodes in ascending order, equal ones as they were, with tail and count exact.  Iterators begin
   * again, unless there was nothing to sort.
   */
  method Sort(l: List, cmp: (int, int) -> int)
    requires l.Valid() && Consistent(cmp)
    modifies l`head, l`tail, l`nodes, l.nodes, l.iNext
    ensures l.Valid() && Sorted(l.nodes, DATA, cmp) && SameLikes(old(l.nodes), l.nodes, DATA, cmp)
    ensures multiset(l.nodes) == multiset(old(l.nodes))
    ensures if |l.nodes| > 1 then forall i :: i in l.iNext ==> i.Fresh(l.nodes)
            else l.nodes == old(l.nodes) && Unmoved(l.iNext)
  {
    ghost var all := l.nodes;
    if l.count > 1 {
      Rearrange(l, cmp);
      ResetIterators(l);
      SameLikesPermutes(all, l.nodes, DATA, cmp);
    }
  }

  /** The sort itself, for two nodes or more. */
  method Rearrange(l: List, cmp: (int, int) -> int)
    requires l.Linked() && Consistent(cmp) && |l.nodes| > 1
    modifies l`head, l`tail, l`nodes, l.nodes
    ensures l.Linked() && Sorted(l.nodes, DATA, cmp) && SameLikes(old(l.nodes), l.nodes, DATA, cmp)
    ensures |l.nodes| == |old(l.nodes)|
  {
    ghost var all := l.nodes;
    var ppPrev := HeadSlot;
    var first := l.Read(ppPrev, 0);
    var pp := NextSlot(first);
    ghost var m := 1;
    OneSorted(all, cmp);
    while true
      invariant l.Woven() && Sorting(all, l.nodes, m, cmp) && 0 < m <= |l.nodes| == |all|
      invariant pp == SlotAt(l.nodes, m) && ppPrev == SlotAt(l.nodes, m - 1)
      invariant forall n :: n in l.nodes ==> n in all
      decreases |all| - m
    {
      var p := l.Read(pp, m);
      if p == null {
        break;
      }
      pp, ppPrev := SortStep(l, pp, ppPrev, p, cmp, m, all);
      m := m + 1;
    }
    assert l.nodes[..m] == l.nodes;
    l.tail := pp;
  }

  lemma {:induction false} OneSorted(all: seq<Node>, cmp: (int, int) -> int)
    requires |all| > 0
    ensures Sorting(all, all, 1, cmp)
  {
    var front := all[..1];
    forall i, j
      ensures InOrder(front, DATA, cmp, i, j)
    {}
  }
}
