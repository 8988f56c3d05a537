/** Singly linked lists with any number of live iterators. */
module Lists {
  import opened Options
  import opened Seqs

  /** What list items point to. */
  type Data = int

  class Node {
    const data: Data
    var next: Node?

    constructor (data: Data, next: Node?)
      ensures this.data == data && this.next == next
    {
      this.data, this.next := data, next;
    }
  }

  const DATA: Node -> Data := (n: Node) => n.data

  /** The address of a pointer to a node: the list's head, or the next field of a node. */
  datatype Slot = HeadSlot | NextSlot(node: Node)

  // ---- positions ----

  /** The node with index k, or null behind the last one. */
  function NodeAt(nodes: seq<Node>, k: int): Node? {
    if 0 <= k < |nodes| then nodes[k] else null
  }

  /** The address of the pointer to the node with index k. */
  function SlotAt(nodes: seq<Node>, k: nat): Slot
    requires k <= |nodes|
  {
    if k == 0 then HeadSlot else NextSlot(nodes[k - 1])
  }

  /** The node that holds the pointer. */
  function Owner(s: Slot): set<Node> { if s.HeadSlot? then {} else {s.node} }

  ghost predicate Differ(nodes: seq<Node>, i: int, j: int) { 0 <= i < j < |nodes| ==> nodes[i] != nodes[j] }

  ghost predicate Distinct(nodes: seq<Node>) { forall i, j :: Differ(nodes, i, j) }

  /** No other node is the one with index k. */
  lemma {:induction false} Apart(nodes: seq<Node>, k: nat)
    requires Distinct(nodes) && k < |nodes|
    ensures forall j :: 0 <= j < |nodes| && j != k ==> nodes[j] != nodes[k]
  {
    forall j | 0 <= j < |nodes| && j != k
      ensures nodes[j] != nodes[k]
    {
      assert Differ(nodes, j, k) && Differ(nodes, k, j);
    }
  }

  ghost function All(nodes: seq<Node>): set<Node> { set n | n in nodes }

  function Inserted(nodes: seq<Node>, k: nat, p: Node): seq<Node>
    requires k <= |nodes|
  {
    nodes[..k] + [p] + nodes[k..]
  }

  lemma {:induction false} SlotsDiffer(nodes: seq<Node>, j: nat, k: nat)
    requires Distinct(nodes) && j <= |nodes| && k <= |nodes| && j != k
    ensures SlotAt(nodes, j) != SlotAt(nodes, k)
  {
    if j > 0 {
      Apart(nodes, j - 1);
    }
  }

  lemma {:induction false} DistinctInserted(nodes: seq<Node>, k: nat, p: Node)
    requires Distinct(nodes) && k <= |nodes| && p !in nodes
    ensures Distinct(Inserted(nodes, k, p))
  {
    var nodes' := Inserted(nodes, k, p);
    forall i, j
      ensures Differ(nodes', i, j)
    {
      assert Differ(nodes, if i < k then i else i - 1, if j < k then j else j - 1);
    }
  }

  lemma {:induction false} DistinctWithout(nodes: seq<Node>, k: nat)
    requires Distinct(nodes) && k < |nodes|
    ensures Distinct(Without(nodes, k))
  {
    var nodes' := Without(nodes, k);
    forall i, j
      ensures Differ(nodes', i, j)
    {
      assert Differ(nodes, if i < k then i else i + 1, if j < k then j else j + 1);
    }
  }

  /** Where an iterator stands: before node index `at`, and when ahead it has already returned that node. */
  datatype Place = Place(at: nat, ahead: bool) {
    /** Index of the node the iterator will return next. */
    function Next(): nat { if ahead then at + 1 else at }

    ghost predicate In(nodes: seq<Node>) { at <= |nodes| && (ahead ==> at < |nodes|) }
  }

  /** The place after a node has been inserted at k. */
  function AfterInsert(pl: Place, k: nat): Place { if pl.at >= k then Place(pl.at + 1, pl.ahead) else pl }

  /** The place after the node at k has been removed. */
  function AfterRemove(pl: Place, k: nat): Place {
    if pl.Next() == k then Place(k, false)
    else if pl.at > k then Place(pl.at - 1, pl.ahead)
    else if pl.at == k then Place(k, false)
    else pl
  }

  /** No node from index n on has been returned, and of those before it no initial one has been left out. */
  ghost predicate Upto(nodes: seq<Node>, n: nat, returned: set<Node>, initial: set<Node>) {
    && (forall k :: n <= k < |nodes| ==> nodes[k] !in returned)
    && (forall k :: 0 <= k < n && k < |nodes| && nodes[k] in initial ==> nodes[k] in returned)
  }

  /** What an insertion does to the fields of an iterator. */
  lemma {:induction false} PlaceAfterInsert(nodes: seq<Node>, k: nat, p: Node, pl: Place)
    requires k <= |nodes| && pl.In(nodes)
    ensures var nodes', pl' := Inserted(nodes, k, p), AfterInsert(pl, k);
            && pl'.In(nodes')
            && SlotAt(nodes', pl'.at) == (if pl.at == k then NextSlot(p) else SlotAt(nodes, pl.at))
            && NodeAt(nodes', pl'.Next()) == if pl.at < k && pl.Next() == k then p else NodeAt(nodes, pl.Next())
  {}

  /** A new node is in front of the next one only when it is not behind the iterator's place. */
  lemma {:induction false} UptoInserted(nodes: seq<Node>, k: nat, p: Node, pl: Place, returned: set<Node>,
      initial: set<Node>)
    requires k <= |nodes| && Upto(nodes, pl.Next(), returned, initial) && p !in returned && p !in initial
    ensures Upto(Inserted(nodes, k, p), AfterInsert(pl, k).Next(), returned, initial)
  {}

  lemma {:induction false} UptoWithout(nodes: seq<Node>, k: nat, pl: Place, returned: set<Node>, initial: set<Node>)
    requires k < |nodes| && Upto(nodes, pl.Next(), returned, initial)
    ensures Upto(Without(nodes, k), AfterRemove(pl, k).Next(), returned, initial)
  {}

  /** What a removal does to the fields of an iterator. */
  lemma {:induction false} PlaceAfterRemove(nodes: seq<Node>, k: nat, pl: Place)
    requires k < |nodes| && pl.In(nodes)
    ensures var nodes', pl' := Without(nodes, k), AfterRemove(pl, k);
            && pl'.In(nodes')
            && SlotAt(nodes', pl'.at) == SlotAt(nodes, if pl.Next() == k || pl.at == k + 1 then k else pl.at)
            && NodeAt(nodes', pl'.Next()) == NodeAt(nodes, if pl.Next() == k then k + 1 else pl.Next())
  {}

  /** An iterator's place, the nodes it has returned since its last reset, and the nodes in the list then. */
  datatype Account = Account(place: Place, returned: set<Node>, initial: set<Node>)

  class ListIterator {
    var pos: Node?
    var prev: Slot
    ghost var place: Place
    /** The nodes returned since the last reset. */
    ghost var returned: set<Node>
    /** The nodes in the list at the last reset. */
    ghost var initial: set<Node>

    /** The iterator's fields are those of its place; it has returned none still to come, and left out none. */
    ghost predicate Good(nodes: seq<Node>)
      reads this
    {
      && place.In(nodes)
      && prev == SlotAt(nodes, place.at) && pos == NodeAt(nodes, place.Next())
      && Upto(nodes, place.Next(), returned, initial)
    }

    ghost function Now(): Account
      reads this
    {
      Account(place, returned, initial)
    }

    /** The iterator begins with these nodes. */
    ghost predicate Fresh(nodes: seq<Node>)
      reads this
    {
      place == Place(0, false) && returned == {} && initial == All(nodes)
    }

    constructor (head: Node?, ghost nodes: seq<Node>)
      requires head == NodeAt(nodes, 0)
      ensures Good(nodes) && Fresh(nodes)
    {
      pos, prev := head, HeadSlot;
      place, returned, initial := Place(0, false), {}, All(nodes);
    }

    method Reset(head: Node?, ghost nodes: seq<Node>)
      requires head == NodeAt(nodes, 0)
      modifies this
      ensures Good(nodes) && Fresh(nodes)
    {
      pos, prev := head, HeadSlot;
      place, returned, initial := Place(0, false), {}, All(nodes);
    }

    /** Steps over the next node: next is behind it, and q is where prev points. */
    method Advance(next: Node?, q: Node?, ghost nodes: seq<Node>)
      requires Good(nodes) && Distinct(nodes)
      requires next == NodeAt(nodes, place.Next() + 1) && q == NodeAt(nodes, place.at)
      modifies this
      ensures Good(nodes) && place == Place(old(place.Next()), old(place.Next()) < |nodes|)
      ensures returned == old(returned) + if old(pos) == null then {} else {old(pos)}
      ensures initial == old(initial)
    {
      ghost var k := place.Next();
      if k < |nodes| {
        Apart(nodes, k);
      }
      var p := pos;
      if p != null {
        pos := next;
        returned := returned + {p};
      }
      if q != p {
        prev := NextSlot(q);
      }
      place := Place(k, k < |nodes|);
    }

    /** The repair when p has been put behind pp, in front of next. */
    method RepairInsert(pp: Slot, p: Node, next: Node?, ghost nodes: seq<Node>, ghost k: nat)
      requires Good(nodes) && Distinct(nodes) && k <= |nodes| && p !in nodes
      requires p !in returned && p !in initial
      requires pp == SlotAt(nodes, k) && next == NodeAt(nodes, k)
      modifies this
      ensures Good(Inserted(nodes, k, p)) && place == AfterInsert(old(place), k) && Kept(this)
    {
      if place.at != k {
        SlotsDiffer(nodes, place.at, k);
      }
      if k < |nodes| {
        Apart(nodes, k);
      }
      if prev == pp {
        prev := NextSlot(p);
      } else if pos == next {
        pos := p;
      }
      PlaceAfterInsert(nodes, k, p, place);
      UptoInserted(nodes, k, p, place, returned, initial);
      place := AfterInsert(place, k);
    }

    /** The repair when p, behind pp, has been taken out. */
    method RepairRemove(pp: Slot, p: Node, next: Node?, ghost nodes: seq<Node>, ghost k: nat)
      requires Good(nodes) && Distinct(nodes) && k < |nodes|
      requires pp == SlotAt(nodes, k) && p == nodes[k] && next == NodeAt(nodes, k + 1)
      modifies this
      ensures Good(Without(nodes, k)) && place == AfterRemove(old(place), k) && Kept(this)
    {
      if place.at != k + 1 {
        SlotsDiffer(nodes, place.at, k + 1);
      }
      Apart(nodes, k);
      if pos == p {
        pos, prev := next, pp;
      } else if prev == NextSlot(p) {
        prev := pp;
      }
      PlaceAfterRemove(nodes, k, place);
      UptoWithout(nodes, k, place, returned, initial);
      place := AfterRemove(place, k);
    }
  }

  /** What the iterator has returned, and since when, is as it was. */
  twostate predicate Kept(i: ListIterator)
    reads i
  {
    i.returned == old(i.returned) && i.initial == old(i.initial)
  }

  /** The iterators keep what they have returned, and their places are as after an insertion at k. */
  twostate predicate MovedByInsert(its: seq<ListIterator>, k: nat)
    reads its
  {
    forall i :: i in its ==> Kept(i) && i.place == AfterInsert(old(i.place), k)
  }

  /** The same after a removal at k. */
  twostate predicate MovedByRemove(its: seq<ListIterator>, k: nat)
    reads its
  {
    forall i :: i in its ==> Kept(i) && i.place == AfterRemove(old(i.place), k)
  }

  twostate predicate Unmoved(its: seq<ListIterator>)
    reads its
  {
    forall i :: i in its ==> Kept(i) && i.place == old(i.place)
  }

  /** The same after deletion of what f selects among the first n nodes. */
  twostate predicate MovedBySweep(its: seq<ListIterator>, f: Data -> bool, all: seq<Node>, n: nat)
    requires n <= |all|
    reads its
  {
    forall i :: i in its ==> Kept(i) && i.place == Swept(f, all, n, old(i.place))
  }

  ghost predicate SweptFrom(its: seq<ListIterator>, f: Data -> bool, all: seq<Node>, n: nat,
                            was: map<ListIterator, Account>)
    reads its
  {
    n <= |all| && forall i :: i in its ==> IsSwept(i, f, all, n, was)
  }

  ghost predicate IsSwept(i: ListIterator, f: Data -> bool, all: seq<Node>, n: nat, was: map<ListIterator, Account>)
    requires n <= |all|
    reads i
  {
    i in was && i.Now() == was[i].(place := Swept(f, all, n, was[i].place))
  }

  /** The iterators differ from one another. */
  ghost predicate DistinctIterators(its: seq<ListIterator>) { forall i, j :: IteratorsDiffer(its, i, j) }

  ghost predicate IteratorsDiffer(its: seq<ListIterator>, i: int, j: int) { 0 <= i < j < |its| ==> its[i] != its[j] }

  lemma {:induction false} OtherIterators(its: seq<ListIterator>, k: nat)
    requires DistinctIterators(its) && k < |its|
    ensures forall j :: 0 <= j < |its| && j != k ==> its[j] != its[k]
  {
    forall j | 0 <= j < |its| && j != k
      ensures its[j] != its[k]
    {
      assert IteratorsDiffer(its, j, k) && IteratorsDiffer(its, k, j);
    }
  }

  ghost predicate Points(nodes: seq<Node>, k: int)
    reads nodes
  {
    0 <= k < |nodes| ==> nodes[k].next == NodeAt(nodes, k + 1)
  }

  /** Each of these nodes points to the one behind it. */
  ghost predicate Chained(nodes: seq<Node>)
    reads nodes
  {
    Distinct(nodes) && forall k :: Points(nodes, k)
  }

  ghost predicate AllGood(its: seq<ListIterator>, from: nat, to: nat, nodes: seq<Node>)
    requires from <= to <= |its|
    reads its
  {
    forall j :: from <= j < to ==> its[j].Good(nodes)
  }

  class List {
    var head: Node?
    var tail: Slot
    var iNext: seq<ListIterator>
    var count: int
    ghost var nodes: seq<Node>

    /** The pointers form the chain of nodes. */
    ghost predicate Woven()
      reads this, nodes
    {
      head == NodeAt(nodes, 0) && Chained(nodes)
    }

    /** Besides, tail and count are exact. */
    ghost predicate Linked()
      reads this, nodes
    {
      Woven() && tail == SlotAt(nodes, |nodes|) && count == |nodes|
    }

    ghost predicate Valid()
      reads this, nodes, iNext
    {
      && Linked()
      && DistinctIterators(iNext)
      && AllGood(iNext, 0, |iNext|, nodes)
    }

    /** The items in order. */
    ghost function Contents(): (s: seq<Data>)
      reads this
      ensures |s| == |nodes| && forall k :: 0 <= k < |nodes| ==> s[k] == nodes[k].data
    {
      seq(|nodes|, k requires 0 <= k < |nodes| reads this => nodes[k].data)
    }

    constructor ()
      ensures Valid() && nodes == [] && iNext == []
    {
      head, tail, iNext, count, nodes := null, HeadSlot, [], 0, [];
    }

    /** *pp. */
    method Read(pp: Slot, ghost k: nat) returns (p: Node?)
      requires Woven() && k <= |nodes| && pp == SlotAt(nodes, k)
      ensures p == NodeAt(nodes, k)
    {
      assert Points(nodes, k - 1);
      match pp
      case HeadSlot => p := head;
      case NextSlot(n) => p := n.next;
    }

    /** Puts p into the chain behind pp. */
    method LinkIn(pp: Slot, p: Node, ghost k: nat)
      requires Linked() && k <= |nodes| && pp == SlotAt(nodes, k)
      requires p !in nodes && p.next == NodeAt(nodes, k)
      modifies this`head, this`tail, this`count, this`nodes, Owner(pp)
      ensures Linked() && nodes == Inserted(old(nodes), k, p)
    {
      if k > 0 {
        Apart(nodes, k - 1);
      }
      DistinctInserted(nodes, k, p);
      if p.next == null {
        tail := NextSlot(p);
      }
      match pp {
        case HeadSlot => head := p;
        case NextSlot(n) => n.next := p;
      }
      count := count + 1;
      ghost var before := nodes;
      nodes := Inserted(nodes, k, p);
      forall j
        ensures Points(nodes, j)
      {
        assert old(Points(before, if j < k then j else j - 1));
      }
    }

    /** Repairs every iterator after an insertion. */
    method RepairInserted(pp: Slot, p: Node, next: Node?, ghost before: seq<Node>, ghost k: nat)
      requires DistinctIterators(iNext) && AllGood(iNext, 0, |iNext|, before)
      requires Distinct(before) && k <= |before| && p !in before
      requires forall j :: 0 <= j < |iNext| ==> p !in iNext[j].returned && p !in iNext[j].initial
      requires pp == SlotAt(before, k) && next == NodeAt(before, k)
      modifies iNext
      ensures AllGood(iNext, 0, |iNext|, Inserted(before, k, p))
      ensures MovedByInsert(iNext, k)
    {
      var j := 0;
      while j < |iNext|
        invariant 0 <= j <= |iNext|
        invariant AllGood(iNext, 0, j, Inserted(before, k, p)) && AllGood(iNext, j, |iNext|, before)
        invariant forall m :: 0 <= m < |iNext| ==> Kept(iNext[m])
        invariant forall m :: 0 <= m < j ==> iNext[m].place == AfterInsert(old(iNext[m].place), k)
        invariant forall m :: j <= m < |iNext| ==> iNext[m].place == old(iNext[m].place)
      {
        OtherIterators(iNext, j);
        iNext[j].RepairInsert(pp, p, next, before, k);
        j := j + 1;
      }
    }

    /** list_node_create: a new item behind pp. */
    method NodeCreate(pp: Slot, x: Data, ghost k: nat) returns (p: Node)
      requires Valid() && k <= |nodes| && pp == SlotAt(nodes, k)
      modifies this`head, this`tail, this`count, this`nodes, Owner(pp), iNext
      ensures Valid() && fresh(p) && p.data == x && nodes == Inserted(old(nodes), k, p)
      ensures MovedByInsert(iNext, k)
    {
      ghost var before := nodes;
      var next := Read(pp, k);
      p := new Node(x, next);
      LinkIn(pp, p, k);
      RepairInserted(pp, p, next, before, k);
    }

    /** Takes the node p behind pp out of the chain. */
    method LinkOut(pp: Slot, p: Node, ghost k: nat)
      requires Linked() && k < |nodes| && pp == SlotAt(nodes, k) && p == nodes[k]
      modifies this`head, this`tail, this`count, this`nodes, Owner(pp)
      ensures Linked() && nodes == Without(old(nodes), k) && p.next == NodeAt(old(nodes), k + 1)
    {
      if k > 0 {
        Apart(nodes, k - 1);
      }
      DistinctWithout(nodes, k);
      assert Points(nodes, k);
      match pp {
        case HeadSlot => head := p.next;
        case NextSlot(n) => n.next := p.next;
      }
      if p.next == null {
        tail := pp;
      }
      count := count - 1;
      ghost var before := nodes;
      nodes := Without(nodes, k);
      forall j
        ensures Points(nodes, j)
      {
        assert old(Points(before, if j < k then j else j + 1));
      }
    }

    /** Repairs every iterator after a removal. */
    method RepairRemoved(pp: Slot, p: Node, ghost before: seq<Node>, ghost k: nat)
      requires DistinctIterators(iNext) && AllGood(iNext, 0, |iNext|, before)
      requires Distinct(before) && k < |before| && pp == SlotAt(before, k) && p == before[k]
      requires p.next == NodeAt(before, k + 1)
      modifies iNext
      ensures AllGood(iNext, 0, |iNext|, Without(before, k))
      ensures MovedByRemove(iNext, k)
    {
      var j := 0;
      while j < |iNext|
        invariant 0 <= j <= |iNext|
        invariant AllGood(iNext, 0, j, Without(before, k)) && AllGood(iNext, j, |iNext|, before)
        invariant forall m :: 0 <= m < |iNext| ==> Kept(iNext[m])
        invariant forall m :: 0 <= m < j ==> iNext[m].place == AfterRemove(old(iNext[m].place), k)
        invariant forall m :: j <= m < |iNext| ==> iNext[m].place == old(iNext[m].place)
      {
        OtherIterators(iNext, j);
        iNext[j].RepairRemove(pp, p, p.next, before, k);
        j := j + 1;
      }
    }

    /** list_node_destroy: removes the item behind pp, if there is one. */
    method NodeDestroy(pp: Slot, ghost k: nat) returns (v: Option<Data>)
      requires Valid() && k <= |nodes| && pp == SlotAt(nodes, k)
      modifies this`head, this`tail, this`count, this`nodes, Owner(pp), iNext
      ensures Valid()
      ensures if k < |old(nodes)| then v == Some(old(nodes)[k].data) && nodes == Without(old(nodes), k)
              else v == None && nodes == old(nodes)
      ensures if k < |old(nodes)| then MovedByRemove(iNext, k) else Unmoved(iNext)
    {
      ghost var before := nodes;
      var p := Read(pp, k);
      if p == null {
        return None;
      }
      v := Some(p.data);
      LinkOut(pp, p, k);
      RepairRemoved(pp, p, before, k);
    }

    // ---- the list's own operations ----

    method Append(x: Data)
      requires Valid()
      modifies this`head, this`tail, this`count, this`nodes, nodes, iNext
      ensures Valid() && Contents() == old(Contents()) + [x]
      ensures nodes == old(nodes) + [nodes[|old(nodes)|]] && fresh(nodes[|old(nodes)|])
      ensures MovedByInsert(iNext, |old(nodes)|)
    {
      var _ := NodeCreate(tail, x, |nodes|);
    }

    /** list_push, which is list_prepend. */
    method Push(x: Data)
      requires Valid()
      modifies this`head, this`tail, this`count, this`nodes, nodes, iNext
      ensures Valid() && Contents() == [x] + old(Contents())
      ensures fresh(nodes[0]) && nodes[1..] == old(nodes)
      ensures MovedByInsert(iNext, 0)
    {
      var _ := NodeCreate(HeadSlot, x, 0);
    }

    /** list_pop, which is list_dequeue. */
    method Pop() returns (v: Option<Data>)
      requires Valid()
      modifies this`head, this`tail, this`count, this`nodes, nodes, iNext
      ensures Valid()
      ensures if old(nodes) == [] then v == None && nodes == [] && Unmoved(iNext)
              else v == Some(old(nodes)[0].data) && nodes == old(nodes)[1..] && MovedByRemove(iNext, 0)
    {
      v := NodeDestroy(HeadSlot, 0);
    }

    /** One turn of the deletion: deletes the item behind pp, goes past it, or finds that there is none. */
    method DeleteOrPass(f: Data -> bool, pp: Slot, n: nat, ghost k: nat, ghost all: seq<Node>)
      returns (more: bool, pp': Slot, n': nat, ghost k': nat)
      requires Valid() && k <= |nodes| && pp == SlotAt(nodes, k) && Within(nodes, all)
      modifies this`head, this`tail, this`count, this`nodes, all, iNext
      ensures Valid() && k' <= |nodes| && pp' == SlotAt(nodes, k') && more == (k < |old(nodes)|)
      ensures Turned(f, old(nodes), k, nodes, k') && n' + k' == if more then n + k + 1 else n + k
      ensures if more && f(old(nodes)[k].data) then MovedByRemove(iNext, k) else Unmoved(iNext)
    {
      assert k > 0 ==> nodes[k - 1] in all;
      pp', n', k' := pp, n, k;
      var p := Read(pp, k);
      more := p != null;
      if p != null {
        if f(p.data) {
          var _ := NodeDestroy(pp, k);
          n' := n + 1;
        } else {
          pp', k' := NextSlot(p), k + 1;
        }
      }
    }

    /** The same turn, for iterators whose places are given for m nodes dealt with. */
    method DeleteAndMove(f: Data -> bool, pp: Slot, n: nat, ghost k: nat, ghost all: seq<Node>, ghost m: nat,
        ghost was: map<ListIterator, Account>)
      returns (more: bool, pp': Slot, n': nat, ghost k': nat)
      requires Valid() && k <= |nodes| && pp == SlotAt(nodes, k) && Within(nodes, all)
      requires SweptFrom(iNext, f, all, m, was)
      requires k < |nodes| ==> m < |all| && nodes[k] == all[m] && k == |Left(f, all, m)|
      modifies this`head, this`tail, this`count, this`nodes, all, iNext
      ensures Valid() && k' <= |nodes| && pp' == SlotAt(nodes, k') && more == (k < |old(nodes)|)
      ensures Turned(f, old(nodes), k, nodes, k') && n' + k' == if more then n + k + 1 else n + k
      ensures SweptFrom(iNext, f, all, if more then m + 1 else m, was)
    {
      more, pp', n', k' := DeleteOrPass(f, pp, n, k, all);
      forall i | i in iNext
        ensures IsSwept(i, f, all, if more then m + 1 else m, was)
      {
        assert old(IsSwept(i, f, all, m, was)) && Kept(i);
      }
    }

    /** The same turn, against the whole of the deletion. */
    method DeleteTurn(f: Data -> bool, pp: Slot, n: nat, ghost k: nat, ghost all: seq<Node>, ghost m: nat,
        ghost was: map<ListIterator, Account>)
      returns (more: bool, pp': Slot, n': nat, ghost k': nat, ghost m': nat)
      requires Valid() && k <= |nodes| && pp == SlotAt(nodes, k) && SweptFrom(iNext, f, all, m, was)
      requires Halfway(f, all, m, k, nodes) && n + k == m
      modifies this`head, this`tail, this`count, this`nodes, all, iNext
      ensures Valid() && k' <= |nodes| && pp' == SlotAt(nodes, k') && SweptFrom(iNext, f, all, m', was)
      ensures Halfway(f, all, m', k', nodes) && n' + k' == m'
      ensures m' == (if more then m + 1 else m) && (more <==> m < |all|)
    {
      ghost var before := nodes;
      HalfwayAt(f, all, m, k, nodes);
      more, pp', n', k' := DeleteAndMove(f, pp, n, k, all, m, was);
      m' := if more then m + 1 else m;
      HalfwayOn(f, all, m, k, before, nodes, k');
    }

    /** list_delete_all: removes every item that f selects, and counts them. */
    method DeleteAll(f: Data -> bool) returns (n: nat)
      requires Valid()
      modifies this`head, this`tail, this`count, this`nodes, nodes, iNext
      ensures Valid() && nodes == Left(f, old(nodes), |old(nodes)|)
      ensures n == |old(nodes)| - |nodes|
      ensures MovedBySweep(iNext, f, old(nodes), |old(nodes)|)
    {
      n := 0;
      var pp, more := HeadSlot, true;
      ghost var k: nat, m: nat, all, was := 0, 0, nodes, map i | i in iNext :: i.Now();
      HalfwayStart(f, all);
      while more
        invariant Valid() && k <= |nodes| && pp == SlotAt(nodes, k)
        invariant Halfway(f, all, m, k, nodes) && n + k == m && SweptFrom(iNext, f, all, m, was)
        invariant m <= |all| && (more || m == |all|)
        decreases |all| - m, more
      {
        more, pp, n, k, m := DeleteTurn(f, pp, n, k, all, m, was);
      }
      HalfwayEnd(f, all, k, nodes);
    }

    // ---- iterators ----

    /** What a slot holds. */
    ghost function Target(pp: Slot): Node?
      reads this, Owner(pp)
    {
      match pp
      case HeadSlot => head
      case NextSlot(n) => n.next
    }

    /** The condition every iterator is asserted to meet after each insertion and removal. */
    lemma {:induction false} CursorHolds(i: ListIterator)
      requires Valid() && i in iNext
      ensures i.pos == Target(i.prev) || (Target(i.prev) != null && i.pos == Target(i.prev).next)
    {
      assert Points(nodes, i.place.at - 1) && Points(nodes, i.place.at);
    }

    method IteratorCreate() returns (i: ListIterator)
      requires Valid()
      modifies this`iNext
      ensures Valid() && fresh(i) && iNext == [i] + old(iNext) && i.Fresh(nodes)
    {
      i := new ListIterator(head, nodes);
      ghost var before := iNext;
      iNext := [i] + iNext;
      forall m, n
        ensures IteratorsDiffer(iNext, m, n)
      {
        assert IteratorsDiffer(before, m - 1, n - 1);
      }
    }

    method IteratorReset(i: ListIterator)
      requires Valid() && i in iNext
      modifies i
      ensures Valid() && i.Fresh(nodes)
    {
      i.Reset(head, nodes);
    }

    method IteratorDestroy(i: ListIterator)
      requires Valid() && i in iNext
      modifies this`iNext
      ensures Valid() && exists k :: 0 <= k < |old(iNext)| && old(iNext)[k] == i && iNext == Without(old(iNext), k)
    {
      var pi := 0;
      while iNext[pi] != i
        invariant 0 <= pi < |iNext| && i in iNext[pi..]
        decreases |iNext| - pi
      {
        pi := pi + 1;
      }
      ghost var before := iNext;
      iNext := Without(iNext, pi);
      forall m, n
        ensures IteratorsDiffer(iNext, m, n)
      {
        assert IteratorsDiffer(before, if m < pi then m else m + 1, if n < pi then n else n + 1);
      }
    }

    /**
     * list_next: the next item that has not been returned since the last reset, whatever has been inserted and removed
     * meanwhile; nothing at the end, and then none of those in the list at the last reset has been left out.
     */
    method Next(i: ListIterator) returns (v: Option<Data>)
      requires Valid() && i in iNext
      modifies i
      ensures Valid()
      ensures var k := old(i.place.Next());
              if k == |nodes| then v == None && i.place == Place(k, false) && i.returned == old(i.returned)
              else v == Some(nodes[k].data) && i.place == Place(k, true)
                   && nodes[k] !in old(i.returned) && i.returned == old(i.returned) + {nodes[k]}
      ensures i.initial == old(i.initial)
      ensures v == None ==> forall n :: n in nodes && n in i.initial ==> n in i.returned
    {
      var p := i.pos;
      v := if p == null then None else Some(p.data);
      var q := Read(i.prev, i.place.at);
      assert Points(nodes, i.place.Next());
      i.Advance(if p == null then null else p.next, q, nodes);
    }

    /** list_insert: a new item in front of the one the iterator returned last (or would return next). */
    method Insert(i: ListIterator, x: Data) returns (p: Node)
      requires Valid() && i in iNext
      modifies this`head, this`tail, this`count, this`nodes, nodes, iNext
      ensures Valid() && fresh(p) && p.data == x && nodes == Inserted(old(nodes), old(i.place.at), p)
      ensures MovedByInsert(iNext, old(i.place.at))
    {
      p := NodeCreate(i.prev, x, i.place.at);
    }

    /** list_remove: takes out the item the iterator returned last, unless it has been removed already. */
    method Remove(i: ListIterator) returns (v: Option<Data>)
      requires Valid() && i in iNext
      modifies this`head, this`tail, this`count, this`nodes, nodes, iNext
      ensures Valid()
      ensures var k := old(i.place.at);
              if old(i.place.ahead)
              then v == Some(old(nodes)[k].data) && nodes == Without(old(nodes), k) && MovedByRemove(iNext, k)
              else v == None && nodes == old(nodes) && Unmoved(iNext)
    {
      v := None;
      if i.place.ahead {
        Apart(nodes, i.place.at);
      }
      var q := Read(i.prev, i.place.at);
      if q != i.pos {
        v := NodeDestroy(i.prev, i.place.at);
      }
    }
  }

  /** Those of the first n nodes whose items f does not select. */
  function Left(f: Data -> bool, s: seq<Node>, n: nat): seq<Node>
    requires n <= |s|
  {
    if n == 0 then [] else Left(f, s, n - 1) + if f(s[n - 1].data) then [] else [s[n - 1]]
  }

  /** They are exactly the nodes that are not selected. */
  lemma {:induction false} LeftMembers(f: Data -> bool, s: seq<Node>, n: nat, x: Node)
    requires n <= |s|
    ensures x in Left(f, s, n) <==> x in s[..n] && !f(x.data)
  {
    if n > 0 {
      LeftMembers(f, s, n - 1, x);
      assert s[..n] == s[..n - 1] + [s[n - 1]];
    }
  }

  /** They stay in order: what is left of two stretches is what is left of each. */
  lemma {:induction false} LeftInOrder(f: Data -> bool, a: seq<Node>, b: seq<Node>, n: nat)
    requires n <= |b|
    ensures Left(f, a + b, |a| + n) == Left(f, a, |a|) + Left(f, b, n)
  {
    if n == 0 {
      LeftLocal(f, a + b, a, |a|);
    } else {
      LeftInOrder(f, a, b, n - 1);
      Assoc(Left(f, a, |a|), Left(f, b, n - 1), if f(b[n - 1].data) then [] else [b[n - 1]]);
    }
  }

  lemma {:induction false} LeftLocal(f: Data -> bool, s: seq<Node>, t: seq<Node>, n: nat)
    requires n <= |s| && n <= |t| && s[..n] == t[..n]
    ensures Left(f, s, n) == Left(f, t, n)
  {
    if n > 0 {
      assert s[n - 1] == s[..n][n - 1] == t[..n][n - 1] == t[n - 1];
      assert s[..n - 1] == s[..n][..n - 1] == t[..n][..n - 1] == t[..n - 1];
      LeftLocal(f, s, t, n - 1);
    }
  }

  /** The place after deletion has dealt with the first n nodes. */
  function Swept(f: Data -> bool, all: seq<Node>, n: nat, pl: Place): Place
    requires n <= |all|
  {
    if n == 0 then pl
    else
      var pl' := Swept(f, all, n - 1, pl);
      if f(all[n - 1].data) then AfterRemove(pl', |Left(f, all, n - 1)|) else pl'
  }

  lemma {:induction false} LeftGrows(f: Data -> bool, s: seq<Node>, m: nat, n: nat)
    requires m <= n <= |s|
    ensures |Left(f, s, m)| <= |Left(f, s, n)|
  {
    if m < n {
      LeftGrows(f, s, m, n - 1);
    }
  }

  lemma {:induction false} SweptTo(f: Data -> bool, all: seq<Node>, n: nat, pl: Place)
    requires n <= |all| && pl.Next() <= |all|
    ensures Swept(f, all, n, pl).Next()
         == if n <= pl.Next() then |Left(f, all, n)| + pl.Next() - n else |Left(f, all, pl.Next())|
  {
    if n > 0 {
      SweptTo(f, all, n - 1, pl);
      if n > pl.Next() {
        LeftGrows(f, all, pl.Next(), n - 1);
      }
    }
  }

  /** Deleting items makes an iterator skip nothing: it goes on behind those left of the nodes it had passed. */
  lemma {:induction false} SweptNext(f: Data -> bool, all: seq<Node>, pl: Place)
    requires pl.Next() <= |all|
    ensures Swept(f, all, |all|, pl).Next() == |Left(f, all, pl.Next())|
  {
    SweptTo(f, all, |all|, pl);
  }

  /** Deletion has dealt with the first n nodes of all, and k of them are left in front of the others. */
  ghost predicate Halfway(f: Data -> bool, all: seq<Node>, n: nat, k: nat, nodes: seq<Node>) {
    n <= |all| && nodes == Left(f, all, n) + all[n..] && k == |Left(f, all, n)|
  }

  ghost predicate Within(nodes: seq<Node>, all: seq<Node>) { forall x :: x in nodes ==> x in all }

  lemma {:induction false} HalfwayStart(f: Data -> bool, all: seq<Node>)
    ensures Halfway(f, all, 0, 0, all)
  {
    assert [] + all[0..] == all;
  }

  lemma {:induction false} LeftWithin(f: Data -> bool, s: seq<Node>, n: nat)
    requires n <= |s|
    ensures Within(Left(f, s, n), s)
  {
    if n > 0 {
      LeftWithin(f, s, n - 1);
    }
  }

  lemma {:induction false} HalfwayAt(f: Data -> bool, all: seq<Node>, n: nat, k: nat, nodes: seq<Node>)
    requires Halfway(f, all, n, k, nodes)
    ensures Within(nodes, all) && (k < |nodes| <==> n < |all|)
    ensures k < |nodes| ==> nodes[k] == all[n] && k == |Left(f, all, n)|
  {
    LeftWithin(f, all, n);
  }

  lemma {:induction false} HalfwayEnd(f: Data -> bool, all: seq<Node>, k: nat, nodes: seq<Node>)
    requires Halfway(f, all, |all|, k, nodes)
    ensures nodes == Left(f, all, |all|) && k == |nodes|
  {
    assert all[|all|..] == [];
  }

  /** One turn of the deletion, as the nodes see it. */
  ghost predicate Turned(f: Data -> bool, nodes: seq<Node>, k: nat, nodes': seq<Node>, k': nat) {
    if k < |nodes| && f(nodes[k].data) then nodes' == Without(nodes, k) && k' == k
    else nodes' == nodes && k' == if k < |nodes| then k + 1 else k
  }

  lemma {:induction false} HalfwayOn(f: Data -> bool, all: seq<Node>, n: nat, k: nat, nodes: seq<Node>,
      nodes': seq<Node>, k': nat)
    requires Halfway(f, all, n, k, nodes) && Turned(f, nodes, k, nodes', k')
    ensures Halfway(f, all, if k < |nodes| then n + 1 else n, k', nodes')
  {
    if k < |nodes| {
      Cut(all, n);
      Assoc(Left(f, all, n), [all[n]], all[n + 1..]);
      assert Left(f, all, n) + [] == Left(f, all, n);
    }
  }
}
