/** What each call does to a list and its iterators, as a relation between the states before and after it. */
module ListSteps {
  import opened Options
  import opened Seqs
  import opened Lists
  import opened StableSorting
  import ListSorting

  /** A call; i picks one of the live iterators, and a call for one that does not exist is not made. */
  datatype Op =
    | Append(x: Data) | Push(x: Data) | Pop | DeleteAll(f: Data -> bool) | Sort(cmp: (int, int) -> int)
    | Create | Reset(i: nat) | Destroy(i: nat) | Next(i: nat) | Insert(i: nat, x: Data) | Remove(i: nat)

  const START := Place(0, false)

  /** The nodes of a list, its iterators, and where they stand. */
  datatype Snapshot = Snapshot(nodes: seq<Node>, its: seq<ListIterator>, places: seq<Place>) {
    ghost predicate Fit() { |places| == |its| && forall j :: 0 <= j < |places| ==> places[j].In(nodes) }
  }

  ghost function Shot(l: List): (s: Snapshot)
    reads l, l.iNext
    ensures s.nodes == l.nodes && s.its == l.iNext && |s.places| == |l.iNext|
    ensures forall j :: 0 <= j < |l.iNext| ==> s.places[j] == l.iNext[j].place
  {
    Snapshot(l.nodes, l.iNext, seq(|l.iNext|, j requires 0 <= j < |l.iNext| reads l, l.iNext => l.iNext[j].place))
  }

  lemma {:induction false} ShotFits(l: List)
    requires l.Valid()
    ensures Shot(l).Fit()
  {
    forall j | 0 <= j < |l.iNext|
      ensures Shot(l).places[j].In(l.nodes)
    {
      assert l.iNext[j].Good(l.nodes);
    }
  }

  /** A new node for x has come in at k. */
  ghost predicate Put(s: Snapshot, x: Data, k: nat, s': Snapshot) {
    && k <= |s.nodes| && |s'.nodes| == |s.nodes| + 1 && s'.nodes == Inserted(s.nodes, k, s'.nodes[k])
    && s'.nodes[k].data == x && s'.nodes[k] !in s.nodes
    && s'.its == s.its && |s'.places| == |s.places|
    && forall j :: 0 <= j < |s.places| ==> s'.places[j] == AfterInsert(s.places[j], k)
  }

  /** The node at k has gone. */
  ghost predicate Taken(s: Snapshot, k: nat, s': Snapshot) {
    && k < |s.nodes| && s'.nodes == Without(s.nodes, k)
    && s'.its == s.its && |s'.places| == |s.places|
    && forall j :: 0 <= j < |s.places| ==> s'.places[j] == AfterRemove(s.places[j], k)
  }

  /** The first item goes, if there is one. */
  ghost predicate Popped(s: Snapshot, v: Option<Data>, s': Snapshot) {
    if s.nodes == [] then v == None && s' == s else v == Some(s.nodes[0].data) && Taken(s, 0, s')
  }

  /** The nodes that f selects have gone. */
  ghost predicate SweptOff(s: Snapshot, f: Data -> bool, s': Snapshot) {
    && s'.nodes == Left(f, s.nodes, |s.nodes|)
    && s'.its == s.its && |s'.places| == |s.places|
    && forall j :: 0 <= j < |s.places| ==> s'.places[j] == Swept(f, s.nodes, |s.nodes|, s.places[j])
  }

  /** The nodes are in stable order and every iterator is at the start. */
  ghost predicate Arranged(s: Snapshot, cmp: (int, int) -> int, s': Snapshot) {
    && Sorted(s'.nodes, DATA, cmp) && SameLikes(s.nodes, s'.nodes, DATA, cmp)
    && multiset(s'.nodes) == multiset(s.nodes)
    && s'.its == s.its && |s'.places| == |s.places|
    && forall j :: 0 <= j < |s.places| ==> s'.places[j] == START
  }

  /** A new iterator stands at the start. */
  ghost predicate Joined(s: Snapshot, s': Snapshot) {
    && s'.nodes == s.nodes && |s'.its| == |s.its| + 1 && s'.its == [s'.its[0]] + s.its && s'.its[0] !in s.its
    && s'.places == [START] + s.places
  }

  /** What the call does and answers. */
  ghost predicate Did(op: Op, s: Snapshot, v: Option<Data>, s': Snapshot)
    requires s.Fit()
  {
    match op
    case Append(x) => v == None && Put(s, x, |s.nodes|, s')
    case Push(x) => v == None && Put(s, x, 0, s')
    case Pop => Popped(s, v, s')
    case DeleteAll(f) => v == Some(|s.nodes| - |s'.nodes|) && SweptOff(s, f, s')
    case Sort(cmp) => v == None && if |s.nodes| > 1 then Arranged(s, cmp, s') else s' == s
    case Create => v == None && Joined(s, s')
    case Reset(i) => v == None && s' == if i < |s.its| then s.(places := s.places[i := START]) else s
    case Destroy(i) =>
      v == None && s' == if i < |s.its| then Snapshot(s.nodes, Without(s.its, i), Without(s.places, i)) else s
    case Next(i) =>
      if i >= |s.its| then v == None && s' == s
      else
        var k := s.places[i].Next();
        && v == (if k < |s.nodes| then Some(s.nodes[k].data) else None)
        && s' == s.(places := s.places[i := Place(k, k < |s.nodes|)])
    case Insert(i, x) => v == None && if i < |s.its| then Put(s, x, s.places[i].at, s') else s' == s
    case Remove(i) =>
      if i < |s.its| && s.places[i].ahead
      then v == Some(s.nodes[s.places[i].at].data) && Taken(s, s.places[i].at, s')
      else v == None && s' == s
  }

  // ---- the calls ----

  /** The calls that leave what every iterator has returned as it is. */
  predicate Edits(op: Op) { op.Append? || op.Push? || op.Pop? || op.DeleteAll? || op.Insert? || op.Remove? }

  twostate predicate AllKept(its: seq<ListIterator>)
    reads its
  {
    forall i :: i in its ==> Kept(i)
  }

  /** Besides these, only new nodes and iterators are the list's. */
  twostate predicate OnlyFresh(l: List, nodes: seq<Node>, its: seq<ListIterator>)
    reads l
  {
    && (forall n :: n in l.nodes ==> n in nodes || fresh(n))
    && forall i :: i in l.iNext ==> i in its || fresh(i)
  }

  method DoAppend(l: List, x: Data)
    requires l.Valid()
    modifies l`head, l`tail, l`count, l`nodes, l.nodes, l.iNext
    ensures l.Valid() && AllKept(l.iNext) && OnlyFresh(l, old(l.nodes), old(l.iNext))
    ensures Put(old(Shot(l)), x, |old(l.nodes)|, Shot(l))
  {
    l.Append(x);
  }

  method DoPush(l: List, x: Data)
    requires l.Valid()
    modifies l`head, l`tail, l`count, l`nodes, l.nodes, l.iNext
    ensures l.Valid() && AllKept(l.iNext) && OnlyFresh(l, old(l.nodes), old(l.iNext))
    ensures Put(old(Shot(l)), x, 0, Shot(l))
  {
    l.Push(x);
  }

  method DoInsert(l: List, j: nat, x: Data)
    requires l.Valid() && j < |l.iNext|
    modifies l`head, l`tail, l`count, l`nodes, l.nodes, l.iNext
    ensures l.Valid() && AllKept(l.iNext) && OnlyFresh(l, old(l.nodes), old(l.iNext))
    ensures Put(old(Shot(l)), x, old(l.iNext[j].place.at), Shot(l))
  {
    var _ := l.Insert(l.iNext[j], x);
  }

  lemma {:induction false} WithoutFirst(nodes: seq<Node>)
    requires nodes != []
    ensures Without(nodes, 0) == nodes[1..]
  {}

  method DoPop(l: List) returns (v: Option<Data>)
    requires l.Valid()
    modifies l`head, l`tail, l`count, l`nodes, l.nodes, l.iNext
    ensures l.Valid() && AllKept(l.iNext) && OnlyFresh(l, old(l.nodes), old(l.iNext))
    ensures Popped(old(Shot(l)), v, Shot(l))
  {
    if l.nodes != [] {
      WithoutFirst(l.nodes);
    }
    v := l.Pop();
  }

  method DoDeleteAll(l: List, f: Data -> bool) returns (n: nat)
    requires l.Valid()
    modifies l`head, l`tail, l`count, l`nodes, l.nodes, l.iNext
    ensures l.Valid() && AllKept(l.iNext) && OnlyFresh(l, old(l.nodes), old(l.iNext))
    ensures n == |old(l.nodes)| - |l.nodes| && SweptOff(old(Shot(l)), f, Shot(l))
  {
    LeftWithin(f, l.nodes, |l.nodes|);
    n := l.DeleteAll(f);
  }

  method DoRemove(l: List, j: nat) returns (v: Option<Data>)
    requires l.Valid() && j < |l.iNext|
    modifies l`head, l`tail, l`count, l`nodes, l.nodes, l.iNext
    ensures l.Valid() && AllKept(l.iNext) && OnlyFresh(l, old(l.nodes), old(l.iNext))
    ensures old(Shot(l)).Fit() && Did(Remove(j), old(Shot(l)), v, Shot(l))
  {
    ShotFits(l);
    v := l.Remove(l.iNext[j]);
  }

  /** The iterator's next node joins those it has returned; at the end none it began with has been left out. */
  method DoNext(l: List, j: nat) returns (v: Option<Data>)
    requires l.Valid() && j < |l.iNext|
    modifies l.iNext[j]
    ensures l.Valid() && old(Shot(l)).Fit() && Did(Next(j), old(Shot(l)), v, Shot(l))
    ensures var i, k := l.iNext[j], old(l.iNext[j].place.Next());
            && i.initial == old(i.initial)
            && i.returned == old(i.returned) + (if k < |l.nodes| then {l.nodes[k]} else {})
            && (k < |l.nodes| ==> l.nodes[k] !in old(i.returned))
            && (k >= |l.nodes| ==> forall n :: n in l.nodes && n in i.initial ==> n in i.returned)
  {
    ShotFits(l);
    OtherIterators(l.iNext, j);
    v := l.Next(l.iNext[j]);
  }

  method DoCreate(l: List) returns (i: ListIterator)
    requires l.Valid()
    modifies l`iNext
    ensures l.Valid() && fresh(i) && l.iNext == [i] + old(l.iNext) && i.Fresh(l.nodes)
    ensures Joined(old(Shot(l)), Shot(l))
  {
    i := l.IteratorCreate();
  }

  method DoReset(l: List, j: nat)
    requires l.Valid() && j < |l.iNext|
    modifies l.iNext[j]
    ensures l.Valid() && l.iNext[j].Fresh(l.nodes)
    ensures Shot(l) == var s := old(Shot(l)); s.(places := s.places[j := START])
  {
    OtherIterators(l.iNext, j);
    l.IteratorReset(l.iNext[j]);
  }

  method DoDestroy(l: List, j: nat)
    requires l.Valid() && j < |l.iNext|
    modifies l`iNext
    ensures l.Valid()
    ensures Shot(l) == var s := old(Shot(l)); Snapshot(s.nodes, Without(s.its, j), Without(s.places, j))
  {
    OtherIterators(l.iNext, j);
    ghost var its := l.iNext;
    l.IteratorDestroy(l.iNext[j]);
    assert l.iNext == Without(its, j);
  }

  method DoSort(l: List, cmp: (int, int) -> int)
    requires l.Valid() && Consistent(cmp)
    modifies l`head, l`tail, l`nodes, l.nodes, l.iNext
    ensures l.Valid() && All(l.nodes) == All(old(l.nodes))
    ensures if |old(l.nodes)| > 1
            then Arranged(old(Shot(l)), cmp, Shot(l)) && forall i :: i in l.iNext ==> i.Fresh(l.nodes)
            else Shot(l) == old(Shot(l)) && AllKept(l.iNext)
  {
    ghost var before := l.nodes;
    ListSorting.Sort(l, cmp);
    SameNodes(before, l.nodes);
    if |l.nodes| <= 1 {
      assert Shot(l).places == old(Shot(l)).places;
    } else {
      AllAtStart(l);
    }
  }

  lemma {:induction false} AllAtStart(l: List)
    requires forall i :: i in l.iNext ==> i.Fresh(l.nodes)
    ensures forall j :: 0 <= j < |l.iNext| ==> Shot(l).places[j] == START
  {
    forall j | 0 <= j < |l.iNext|
      ensures Shot(l).places[j] == START
    {
      assert l.iNext[j].Fresh(l.nodes);
    }
  }

  lemma {:induction false} SameNodes(a: seq<Node>, b: seq<Node>)
    requires multiset(a) == multiset(b)
    ensures All(a) == All(b) && |a| == |b|
  {
    assert |multiset(a)| == |a| && |multiset(b)| == |b|;
    forall n
      ensures n in a <==> n in b
    {
      assert (n in a <==> n in multiset(a)) && (n in b <==> n in multiset(b));
    }
  }
}
