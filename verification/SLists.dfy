/** libltdl's linked lists: concatenation, reversal, removal and merge sort, all by relinking. */
module SLists {
  import opened Seqs
  import opened StableSorting
  import opened Lists

  /** head is the first of these nodes, and each points to the next. */
  ghost predicate Chain(head: Node?, items: seq<Node>)
    reads items
  {
    head == NodeAt(items, 0) && Chained(items)
  }

  // ---- distinct nodes ----

  lemma {:induction false} DistinctParts(a: seq<Node>, b: seq<Node>)
    requires Distinct(a + b)
    ensures Distinct(a) && Distinct(b) && forall n :: n in a ==> n !in b
  {
    forall i, j
      ensures Differ(a, i, j)
    {
      assert Differ(a + b, i, j);
    }
    forall i, j
      ensures Differ(b, i, j)
    {
      assert Differ(a + b, |a| + i, |a| + j);
    }
    forall n | n in a
      ensures n !in b
    {
      var i :| 0 <= i < |a| && a[i] == n;
      forall j | 0 <= j < |b|
        ensures b[j] != n
      {
        assert Differ(a + b, i, |a| + j);
      }
    }
  }

  lemma {:induction false} DistinctBoth(a: seq<Node>, b: seq<Node>)
    requires Distinct(a) && Distinct(b) && forall n :: n in a ==> n !in b
    ensures Distinct(a + b)
  {
    forall i, j
      ensures Differ(a + b, i, j)
    {
      assert Differ(a, i, j) && Differ(b, i - |a|, j - |a|);
      if 0 <= i < |a| <= j < |a + b| {
        assert a[i] in a && b[j - |a|] in b;
      }
    }
  }

  // ---- concatenation ----

  /** slist_concat. */
  method Concat(head: Node?, tail: Node?, ghost a: seq<Node>, ghost b: seq<Node>) returns (r: Node?)
    requires Chain(head, a) && Chain(tail, b) && Distinct(a + b)
    modifies a
    ensures Chain(r, a + b)
  {
    if head == null {
      assert a + b == b;
      return tail;
    }
    var last := head;
    ghost var k := 0;
    assert Points(a, 0);
    while last.next != null
      invariant k < |a| && last == a[k] && Points(a, k)
      decreases |a| - k
    {
      last, k := last.next, k + 1;
      assert Points(a, k);
    }
    Join(last, tail, a, b);
    r := head;
  }

  /** Links the last node of a to the first of b. */
  method Join(last: Node, tail: Node?, ghost a: seq<Node>, ghost b: seq<Node>)
    requires a != [] && Chained(a) && Chain(tail, b) && Distinct(a + b) && last == a[|a| - 1]
    modifies last
    ensures Chained(a + b)
  {
    Apart(a + b, |a| - 1);
    last.next := tail;
    forall k
      ensures Points(a + b, k)
    {
      assert old(Points(a, k)) && old(Points(b, k - |a|));
    }
  }

  // ---- reversal ----

  function Reversed(items: seq<Node>): (r: seq<Node>)
    ensures |r| == |items|
  {
    if items == [] then [] else Reversed(items[1..]) + [items[0]]
  }

  lemma {:induction false} ReversedAt(items: seq<Node>, k: nat)
    requires k < |items|
    ensures Reversed(items)[k] == items[|items| - 1 - k]
  {
    if k < |items| - 1 {
      ReversedAt(items[1..], k);
    }
  }

  lemma {:induction false} ReversedMembers(items: seq<Node>)
    ensures forall n :: n in Reversed(items) <==> n in items
  {
    if items != [] {
      ReversedMembers(items[1..]);
      assert items == [items[0]] + items[1..];
    }
  }

  lemma {:induction false} OneDistinct(n: Node)
    ensures Distinct([n])
  {
    forall i, j
      ensures Differ([n], i, j)
    {}
  }

  lemma {:induction false} ReversedSnoc(items: seq<Node>, n: Node)
    ensures Reversed(items + [n]) == [n] + Reversed(items)
  {
    if items != [] {
      ReversedSnoc(items[1..], n);
      assert (items + [n])[1..] == items[1..] + [n] && (items + [n])[0] == items[0];
      Assoc([n], Reversed(items[1..]), [items[0]]);
    }
  }

  /** slist_reverse. */
  method Reverse(slist: Node?, ghost items: seq<Node>) returns (result: Node?)
    requires Chain(slist, items)
    modifies items
    ensures Chain(result, Reversed(items))
  {
    result := null;
    var p := slist;
    ghost var k := 0;
    EmptyChain();
    assert items[..0] == [] && items[0..] == items;
    while p != null
      invariant k <= |items| && Distinct(items) && Chain(result, Reversed(items[..k])) && Chain(p, items[k..])
      decreases |items| - k
    {
      NotBefore(items, k);
      result, p := TurnOne(result, p, items, k);
      k := k + 1;
    }
    assert items[..k] == items;
  }

  lemma {:induction false} NotBefore(items: seq<Node>, k: nat)
    requires Distinct(items) && k < |items|
    ensures items[k] !in items[..k]
  {
    Apart(items, k);
  }

  lemma {:induction false} EmptyChain()
    ensures Chain(null, Reversed([]))
  {
    forall i, j
      ensures Differ([], i, j)
    {}
    forall k
      ensures Points([], k)
    {}
  }

  /** Behind its first node a chain is a chain. */
  lemma {:induction false} ChainTail(items: seq<Node>)
    requires items != [] && Chained(items)
    ensures Chain(items[0].next, items[1..]) && items[0] !in items[1..]
  {
    Apart(items, 0);
    forall i, j
      ensures Differ(items[1..], i, j)
    {
      assert Differ(items, i + 1, j + 1);
    }
    forall k
      ensures Points(items[1..], k)
    {
      assert Points(items, k + 1);
    }
    assert Points(items, 0);
  }

  /** Puts p in front of a chain. */
  method PushFront(p: Node, head: Node?, ghost items: seq<Node>)
    requires Chain(head, items) && p !in items
    modifies p
    ensures p.next == head && Chain(p, [p] + items)
  {
    OneDistinct(p);
    DistinctBoth([p], items);
    p.next := head;
    forall k
      ensures Points([p] + items, k)
    {
      assert old(Points(items, k - 1));
    }
  }

  /** Moves the first node of the rest to the front of the result. */
  method TurnOne(result: Node?, p: Node, ghost items: seq<Node>, ghost k: nat) returns (result': Node?, next: Node?)
    requires k < |items| && Chain(result, Reversed(items[..k])) && Chain(p, items[k..])
    requires items[k] !in items[..k]
    modifies items
    ensures Chain(result', Reversed(items[..k + 1])) && Chain(next, items[k + 1..])
  {
    assert items[k] == p && items[k..][1..] == items[k + 1..] && items[..k + 1] == items[..k] + [p];
    ReversedSnoc(items[..k], p);
    ReversedMembers(items[..k]);
    ChainTail(items[k..]);
    next := p.next;
    PushFront(p, result, Reversed(items[..k]));
    result' := p;
  }

  // ---- removal ----

  /** Links around the node with index k + 1. */
  method Unlink(p: Node, ghost items: seq<Node>, ghost k: nat)
    requires k + 1 < |items| && Chained(items) && p == items[k]
    modifies p
    ensures Chained(Without(items, k + 1))
  {
    Apart(items, k);
    DistinctWithout(items, k + 1);
    assert Points(items, k) && Points(items, k + 1);
    p.next := p.next.next;
    ghost var rest := Without(items, k + 1);
    forall j
      ensures Points(rest, j)
    {
      assert old(Points(items, if j < k + 1 then j else j + 1));
    }
  }

  /** The items that find selects. */
  ghost function Selected(find: Data -> bool): Node -> bool { (n: Node) => find(n.data) }

  /** The index of the first selected item, or -1. */
  ghost function FirstSelected(find: Data -> bool, items: seq<Node>): (k: int)
    ensures -1 <= k < |items|
  {
    FirstTo(items, Selected(find), |items|)
  }

  /** The items before k are not selected. */
  ghost predicate NoneBefore(find: Data -> bool, items: seq<Node>, k: nat) {
    k <= |items| && forall j :: 0 <= j < k ==> !find(items[j].data)
  }

  lemma {:induction false} FirstFound(find: Data -> bool, items: seq<Node>, k: nat)
    requires NoneBefore(find, items, k)
    ensures k < |items| && find(items[k].data) ==> FirstSelected(find, items) == k
    ensures k == |items| ==> FirstSelected(find, items) == -1
  {
    var p := Selected(find);
    assert forall n :: p(n) <==> find(n.data);
    FirstIsFirst(items, p, |items|);
  }

  /** slist_remove: takes the first matching item out. */
  method Remove(phead: Node?, find: Data -> bool, ghost items: seq<Node>) returns (head: Node?, found: bool)
    requires Chain(phead, items)
    modifies items
    ensures var k := FirstSelected(find, items);
            (found <==> k >= 0) && Chain(head, if k >= 0 then Without(items, k) else items)
  {
    FirstFound(find, items, 0);
    if phead == null {
      return null, false;
    }
    if find(phead.data) {
      ChainTail(items);
      assert Without(items, 0) == items[1..];
      return phead.next, true;
    }
    found := RemoveBehind(phead, find, items);
    head := phead;
  }

  /** The search behind a head that does not match. */
  method RemoveBehind(phead: Node, find: Data -> bool, ghost items: seq<Node>) returns (found: bool)
    requires Chain(phead, items) && !find(phead.data)
    modifies items
    ensures var k := FirstSelected(find, items);
            (found <==> k >= 0) && k != 0 && Chain(phead, if k >= 0 then Without(items, k) else items)
  {
    var head := phead;
    ghost var k := 0;
    assert Points(items, 0);
    while head.next != null
      invariant Chain(phead, items) && k < |items| && head == items[k] && Points(items, k)
      invariant NoneBefore(find, items, k + 1)
      decreases |items| - k
    {
      FirstFound(find, items, k + 1);
      if find(head.next.data) {
        Unlink(head, items, k);
        return true;
      }
      head, k := head.next, k + 1;
      assert Points(items, k);
    }
    FirstFound(find, items, k + 1);
    found := false;
  }

  // ---- merging ----

  /** The two sequences merged; of equal heads the left one goes first. */
  function Merged(a: seq<Node>, b: seq<Node>, cmp: (int, int) -> int): seq<Node> {
    if a == [] then b
    else if b == [] then a
    else if cmp(a[0].data, b[0].data) <= 0 then [a[0]] + Merged(a[1..], b, cmp)
    else [b[0]] + Merged(a, b[1..], cmp)
  }

  lemma {:induction false} DistinctExchange(a: seq<Node>, b: seq<Node>, c: seq<Node>, d: seq<Node>)
    requires Distinct(a + b + (c + d))
    ensures Distinct(a + c + (b + d))
  {
    var m, n := |a| + |b|, |a| + |c|;
    forall i, j
      ensures Differ(a + c + (b + d), i, j)
    {
      var i0 := if |a| <= i < n then i + |b| else if n <= i < n + |b| then i - |c| else i;
      var j0 := if |a| <= j < n then j + |b| else if n <= j < n + |b| then j - |c| else j;
      assert Differ(a + b + (c + d), i0, j0) && Differ(a + b + (c + d), j0, i0);
    }
  }

  ghost predicate Leads(done: seq<Node>, k: int)
    reads done
  {
    0 <= k < |done| - 1 ==> done[k].next == done[k + 1]
  }

  /** Each of these nodes but the last points to the next. */
  ghost predicate Threaded(done: seq<Node>)
    reads done
  {
    done != [] && forall k :: Leads(done, k)
  }

  /** Puts p behind the last node. */
  method Extend(insert: Node, p: Node, ghost done: seq<Node>)
    requires Threaded(done) && insert == done[|done| - 1] && Distinct(done)
    modifies insert
    ensures Threaded(done + [p])
  {
    Apart(done, |done| - 1);
    insert.next := p;
    forall k
      ensures Leads(done + [p], k)
    {
      assert old(Leads(done, k));
    }
  }

  /** Puts a whole chain behind the last node. */
  method ExtendAll(insert: Node, tail: Node?, ghost done: seq<Node>, ghost b: seq<Node>)
    requires Threaded(done) && insert == done[|done| - 1] && Chain(tail, b) && Distinct(done + b)
    modifies insert
    ensures Chained(done + b)
  {
    Apart(done + b, |done| - 1);
    insert.next := tail;
    forall k
      ensures Points(done + b, k)
    {
      assert old(Leads(done, k)) && old(Points(b, k - |done|));
    }
  }

  /** What the merge loop keeps: the nodes linked so far and the two rests, all different. */
  ghost predicate Merging(insert: Node, left: Node?, right: Node?, done: seq<Node>, a: seq<Node>, b: seq<Node>)
    reads done, a, b
  {
    && Threaded(done) && insert == done[|done| - 1]
    && Chain(left, a) && Chain(right, b)
    && Distinct(done + a + b)
  }

  lemma {:induction false} MergingApart(insert: Node, left: Node?, right: Node?, done: seq<Node>, a: seq<Node>,
                                        b: seq<Node>)
    requires Merging(insert, left, right, done, a, b)
    ensures Distinct(done) && Distinct(done + a) && Distinct(done + b) && insert !in a && insert !in b
  {
    DistinctParts(done + a, b);
    DistinctParts(done, a);
    assert done + a + b + [] == done + a + (b + []) && done + a + b == done + a + (b + []);
    DistinctExchange(done, a, b, []);
    assert done + b + (a + []) == (done + b) + a;
    DistinctParts(done + b, a);
    assert insert in done && insert in done + a;
  }

  /** Takes the first node of the left rest. */
  method TakeLeft(insert: Node, left: Node, ghost right: Node?, ghost done: seq<Node>, ghost a: seq<Node>,
                  ghost b: seq<Node>)
    returns (next: Node?)
    requires Merging(insert, left, right, done, a, b)
    modifies insert
    ensures Merging(left, next, right, done + [left], a[1..], b)
  {
    MergingApart(insert, left, right, done, a, b);
    ChainTail(a);
    Extend(insert, left, done);
    next := left.next;
    assert done + a + b == done + [left] + a[1..] + b;
  }

  /** Takes the first node of the right rest. */
  method TakeRight(insert: Node, ghost left: Node?, right: Node, ghost done: seq<Node>, ghost a: seq<Node>,
                   ghost b: seq<Node>)
    returns (next: Node?)
    requires Merging(insert, left, right, done, a, b)
    modifies insert
    ensures Merging(right, left, next, done + [right], a, b[1..])
  {
    MergingApart(insert, left, right, done, a, b);
    ChainTail(b);
    assert done + a + b == done + a + ([right] + b[1..]);
    DistinctExchange(done, a, [right], b[1..]);
    assert done + [right] + a + b[1..] == done + [right] + (a + b[1..]);
    Extend(insert, right, done);
    next := right.next;
  }

  lemma {:induction false} StartMerge(merged: Node, left: Node?, right: Node?, a: seq<Node>, b: seq<Node>)
    requires Chain(left, a) && Chain(right, b) && Distinct(a + b) && merged !in a && merged !in b
    ensures Merging(merged, left, right, [merged], a, b)
  {
    OneDistinct(merged);
    DistinctBoth([merged], a + b);
    assert [merged] + a + b == [merged] + (a + b);
    forall k
      ensures Leads([merged], k)
    {}
  }

  /** Between two turns: what has been linked, and what merging the rests will add, is the result. */
  ghost predicate Midway(insert: Node, left: Node?, right: Node?, done: seq<Node>, a: seq<Node>, b: seq<Node>,
                         goal: seq<Node>, cmp: (int, int) -> int)
    reads done, a, b
  {
    Merging(insert, left, right, done, a, b) && done[1..] + Merged(a, b, cmp) == goal
  }

  /** One turn of the merge: the next node is the left one unless the right one is smaller. */
  method MergeOne(insert: Node, left: Node, right: Node, cmp: (int, int) -> int, ghost done: seq<Node>,
                  ghost a: seq<Node>, ghost b: seq<Node>, ghost goal: seq<Node>)
    returns (insert': Node, left': Node?, right': Node?, ghost a': seq<Node>, ghost b': seq<Node>)
    requires Midway(insert, left, right, done, a, b, goal, cmp)
    modifies insert
    ensures Midway(insert', left', right', done + [insert'], a', b', goal, cmp)
    ensures (insert' in a && a' == a[1..] && b' == b) || (insert' in b && a' == a && b' == b[1..])
    ensures |a'| + |b'| < |a| + |b|
  {
    insert', left', right', a', b' := left, left, right, a, b;
    if cmp(left.data, right.data) <= 0 {
      left' := TakeLeft(insert, left, right, done, a, b);
      a' := a[1..];
      Assoc(done[1..], [left], Merged(a', b, cmp));
      assert (done + [left])[1..] == done[1..] + [left];
    } else {
      insert' := right;
      right' := TakeRight(insert, left, right, done, a, b);
      b' := b[1..];
      Assoc(done[1..], [right], Merged(a, b', cmp));
      assert (done + [right])[1..] == done[1..] + [right];
    }
  }

  /** slist_sort_merge. */
  method Merge(left: Node?, right: Node?, cmp: (int, int) -> int, ghost a: seq<Node>, ghost b: seq<Node>,
               ghost all: seq<Node>)
    returns (head: Node?)
    requires Chain(left, a) && Chain(right, b) && Distinct(a + b) && forall n :: n in a || n in b ==> n in all
    modifies all
    ensures Chain(head, Merged(a, b, cmp))
  {
    var merged := new Node(0, null);
    var insert: Node, l, r := merged, left, right;
    ghost var done: seq<Node>, x, y := [merged], a, b;
    StartMerge(merged, left, right, a, b);
    assert done[1..] + Merged(a, b, cmp) == Merged(a, b, cmp);
    while l != null && r != null
      invariant Midway(insert, l, r, done, x, y, Merged(a, b, cmp), cmp) && done[0] == merged
      invariant insert == merged || insert in all
      invariant (forall n :: n in x ==> n in all) && (forall n :: n in y ==> n in all)
      decreases |x| + |y|
    {
      insert, l, r, x, y := MergeOne(insert, l, r, cmp, done, x, y, Merged(a, b, cmp));
      done := done + [insert];
    }
    FinishMerge(insert, l, r, merged, done, x, y, Merged(a, b, cmp), cmp);
    head := merged.next;
  }

  /** Hangs on what is left of one of the lists. */
  method FinishMerge(insert: Node, left: Node?, right: Node?, merged: Node, ghost done: seq<Node>, ghost a: seq<Node>,
                     ghost b: seq<Node>, ghost goal: seq<Node>, ghost cmp: (int, int) -> int)
    requires Midway(insert, left, right, done, a, b, goal, cmp) && done[0] == merged && (left == null || right == null)
    modifies insert
    ensures Chain(merged.next, goal)
  {
    MergingApart(insert, left, right, done, a, b);
    ghost var rest := if left != null then a else b;
    assert rest == Merged(a, b, cmp);
    ExtendAll(insert, if left != null then left else right, done, rest);
    ChainTail(done + rest);
    assert (done + rest)[1..] == done[1..] + rest;
  }

  // ---- sorting ----

  lemma {:induction false} MergedMembers(a: seq<Node>, b: seq<Node>, cmp: (int, int) -> int)
    ensures |Merged(a, b, cmp)| == |a| + |b|
    ensures forall n :: n in Merged(a, b, cmp) ==> n in a || n in b
    decreases |a| + |b|
  {
    if a != [] && b != [] {
      if cmp(a[0].data, b[0].data) <= 0 {
        MergedMembers(a[1..], b, cmp);
      } else {
        MergedMembers(a, b[1..], cmp);
      }
    }
  }

  ghost predicate AtMost(x: int, items: seq<Node>, cmp: (int, int) -> int) {
    forall n :: n in items ==> cmp(x, n.data) <= 0
  }

  lemma {:induction false} HeadAtMost(x: int, items: seq<Node>, cmp: (int, int) -> int)
    requires Consistent(cmp) && Sorted(items, DATA, cmp) && items != [] && cmp(x, items[0].data) <= 0
    ensures AtMost(x, items, cmp)
  {
    forall n | n in items
      ensures cmp(x, n.data) <= 0
    {
      var k :| 0 <= k < |items| && items[k] == n;
      assert InOrder(items, DATA, cmp, 0, k);
    }
  }

  lemma {:induction false} SortedTail(items: seq<Node>, cmp: (int, int) -> int)
    requires Sorted(items, DATA, cmp) && items != []
    ensures Sorted(items[1..], DATA, cmp) && AtMost(items[0].data, items[1..], cmp)
  {
    forall i, j
      ensures InOrder(items[1..], DATA, cmp, i, j)
    {
      assert InOrder(items, DATA, cmp, i + 1, j + 1);
    }
    forall n | n in items[1..]
      ensures cmp(items[0].data, n.data) <= 0
    {
      var k :| 0 <= k < |items| - 1 && items[1..][k] == n;
      assert InOrder(items, DATA, cmp, 0, k + 1);
    }
  }

  lemma {:induction false} SortedCons(n: Node, items: seq<Node>, cmp: (int, int) -> int)
    requires Sorted(items, DATA, cmp) && AtMost(n.data, items, cmp)
    ensures Sorted([n] + items, DATA, cmp)
  {
    forall i, j
      ensures InOrder([n] + items, DATA, cmp, i, j)
    {
      assert InOrder(items, DATA, cmp, i - 1, j - 1);
      assert 0 < j <= |items| ==> items[j - 1] in items;
    }
  }

  lemma {:induction false} AtMostMerged(x: int, a: seq<Node>, b: seq<Node>, cmp: (int, int) -> int)
    requires AtMost(x, a, cmp) && AtMost(x, b, cmp)
    ensures AtMost(x, Merged(a, b, cmp), cmp)
  {
    MergedMembers(a, b, cmp);
  }

  /** Merging sorted sequences gives a sorted one. */
  lemma {:induction false} MergedSorted(a: seq<Node>, b: seq<Node>, cmp: (int, int) -> int)
    requires Consistent(cmp) && Sorted(a, DATA, cmp) && Sorted(b, DATA, cmp)
    ensures Sorted(Merged(a, b, cmp), DATA, cmp)
    decreases |a| + |b|
  {
    if a != [] && b != [] {
      if cmp(a[0].data, b[0].data) <= 0 {
        SortedTail(a, cmp);
        MergedSorted(a[1..], b, cmp);
        HeadAtMost(a[0].data, b, cmp);
        AtMostMerged(a[0].data, a[1..], b, cmp);
        SortedCons(a[0], Merged(a[1..], b, cmp), cmp);
      } else {
        SortedTail(b, cmp);
        MergedSorted(a, b[1..], cmp);
        Opposite(a[0].data, b[0].data, cmp);
        HeadAtMost(b[0].data, a, cmp);
        AtMostMerged(b[0].data, a, b[1..], cmp);
        SortedCons(b[0], Merged(a, b[1..], cmp), cmp);
      }
    }
  }

  lemma {:induction false} AllUnlike(x: Node, a: seq<Node>, cmp: (int, int) -> int)
    requires Consistent(cmp) && Sorted(a, DATA, cmp) && a != [] && cmp(a[0].data, x.data) > 0
    ensures Unlike(x, a, DATA, cmp)
  {
    forall k | 0 <= k < |a|
      ensures cmp(x.data, a[k].data) < 0
    {
      assert InOrder(a, DATA, cmp, 0, k);
      Opposite(a[0].data, x.data, cmp);
      Below(x.data, a[0].data, a[k].data, cmp);
    }
  }

  lemma {:induction false} LikeBehind(x: Node, a: seq<Node>, b: seq<Node>, cmp: (int, int) -> int, d: int)
    requires Like(a, DATA, cmp, d) == Like(b, DATA, cmp, d)
    ensures Like([x] + a, DATA, cmp, d) == Like([x] + b, DATA, cmp, d)
  {
    LikeConcat([x], a, DATA, cmp, d);
    LikeConcat([x], b, DATA, cmp, d);
  }

  /** Going first, a smaller right head passes the left ones, none of which is equal to it. */
  lemma {:induction false} PassesLeft(a: seq<Node>, b: seq<Node>, cmp: (int, int) -> int, d: int)
    requires Consistent(cmp) && Sorted(a, DATA, cmp) && a != [] && b != [] && cmp(a[0].data, b[0].data) > 0
    ensures Like([b[0]] + (a + b[1..]), DATA, cmp, d) == Like(a + b, DATA, cmp, d)
  {
    AllUnlike(b[0], a, cmp);
    MoveKeepsLikes([], a, b[0], b[1..], DATA, cmp);
    assert a + b == [] + a + [b[0]] + b[1..] && [b[0]] + (a + b[1..]) == [] + [b[0]] + a + b[1..];
  }

  lemma {:induction false} LeftGoesFirst(a: seq<Node>, b: seq<Node>, cmp: (int, int) -> int, d: int)
    requires a != [] && b != [] && cmp(a[0].data, b[0].data) <= 0
    requires Like(Merged(a[1..], b, cmp), DATA, cmp, d) == Like(a[1..] + b, DATA, cmp, d)
    ensures Like(Merged(a, b, cmp), DATA, cmp, d) == Like(a + b, DATA, cmp, d)
  {
    LikeBehind(a[0], Merged(a[1..], b, cmp), a[1..] + b, cmp, d);
    assert a + b == [a[0]] + (a[1..] + b);
  }

  lemma {:induction false} RightGoesFirst(a: seq<Node>, b: seq<Node>, cmp: (int, int) -> int, d: int)
    requires Consistent(cmp) && Sorted(a, DATA, cmp) && a != [] && b != [] && cmp(a[0].data, b[0].data) > 0
    requires Like(Merged(a, b[1..], cmp), DATA, cmp, d) == Like(a + b[1..], DATA, cmp, d)
    ensures Like(Merged(a, b, cmp), DATA, cmp, d) == Like(a + b, DATA, cmp, d)
  {
    LikeBehind(b[0], Merged(a, b[1..], cmp), a + b[1..], cmp, d);
    PassesLeft(a, b, cmp, d);
  }

  /** Merging sorted sequences keeps equal items in order, the left ones first. */
  lemma {:induction false} MergedStable(a: seq<Node>, b: seq<Node>, cmp: (int, int) -> int, d: int)
    requires Consistent(cmp) && Sorted(a, DATA, cmp) && Sorted(b, DATA, cmp)
    ensures Like(Merged(a, b, cmp), DATA, cmp, d) == Like(a + b, DATA, cmp, d)
    decreases |a| + |b|
  {
    if a == [] {
      assert a + b == b;
    } else if b == [] {
      assert a + b == a;
    } else if cmp(a[0].data, b[0].data) <= 0 {
      SortedTail(a, cmp);
      MergedStable(a[1..], b, cmp, d);
      LeftGoesFirst(a, b, cmp, d);
    } else {
      SortedTail(b, cmp);
      MergedStable(a, b[1..], cmp, d);
      RightGoesFirst(a, b, cmp, d);
    }
  }

  lemma {:induction false} SortedParts(a: seq<Node>, a': seq<Node>, b: seq<Node>, b': seq<Node>, cmp: (int, int) -> int)
    requires Consistent(cmp) && Sorted(a', DATA, cmp) && Sorted(b', DATA, cmp)
    requires SameLikes(a, a', DATA, cmp) && SameLikes(b, b', DATA, cmp)
    ensures Sorted(Merged(a', b', cmp), DATA, cmp) && SameLikes(a + b, Merged(a', b', cmp), DATA, cmp)
  {
    MergedSorted(a', b', cmp);
    forall d
      ensures Like(Merged(a', b', cmp), DATA, cmp, d) == Like(a + b, DATA, cmp, d)
    {
      MergedStable(a', b', cmp, d);
      LikeConcat(a', b', DATA, cmp, d);
      LikeConcat(a, b, DATA, cmp, d);
      assert Like(a', DATA, cmp, d) == Like(a, DATA, cmp, d) && Like(b', DATA, cmp, d) == Like(b, DATA, cmp, d);
    }
  }

  lemma {:induction false} SameMembers(s: seq<Node>, r: seq<Node>)
    requires multiset(s) == multiset(r)
    ensures |s| == |r| && forall n :: n in r ==> n in s
  {
    assert |multiset(s)| == |s| && |multiset(r)| == |r|;
    forall n | n in r
      ensures n in s
    {
      assert n in multiset(r) && n in multiset(s);
    }
  }

  /** Cuts a chain of two or more in the middle: right runs two steps ahead for each step of at. */
  method Halve(slist: Node, ghost items: seq<Node>) returns (right: Node?, ghost m: nat)
    requires Chain(slist, items) && |items| >= 2
    modifies items
    ensures 0 < m < |items| && Chain(slist, items[..m]) && Chain(right, items[m..])
  {
    var at := slist;
    assert Points(items, 0);
    right := slist.next;
    ghost var i := 0;
    while right != null
      invariant 2 * i + 1 < |items| && at == items[i] && right == items[2 * i + 1]
      decreases |items| - i
    {
      assert Points(items, 2 * i + 1) && Points(items, 2 * i + 2) && Points(items, i);
      right := right.next;
      if right == null {
        break;
      }
      right := right.next;
      if right == null {
        break;
      }
      at, i := at.next, i + 1;
    }
    m := i + 1;
    right := CutBehind(at, items, i);
  }

  /** Ends the chain behind the node with index i. */
  method CutBehind(at: Node, ghost items: seq<Node>, ghost i: nat) returns (right: Node?)
    requires i + 1 < |items| && Chained(items) && at == items[i]
    modifies at
    ensures Chain(items[0], items[..i + 1]) && Chain(right, items[i + 1..])
  {
    Apart(items, i);
    assert items == items[..i + 1] + items[i + 1..];
    DistinctParts(items[..i + 1], items[i + 1..]);
    assert Points(items, i);
    right := at.next;
    at.next := null;
    ghost var front, back := items[..i + 1], items[i + 1..];
    forall k
      ensures Points(front, k)
    {
      assert old(Points(items, k));
    }
    forall k
      ensures Points(back, k)
    {
      assert old(Points(items, k + i + 1));
    }
  }

  /** slist_sort: the same items in ascending order, equal ones as they were. */
  method Sort(slist: Node?, cmp: (int, int) -> int, ghost items: seq<Node>)
    returns (head: Node?, ghost sorted: seq<Node>)
    requires Chain(slist, items) && Consistent(cmp)
    modifies items
    ensures Chain(head, sorted) && Sorted(sorted, DATA, cmp) && SameLikes(items, sorted, DATA, cmp)
    ensures multiset(sorted) == multiset(items)
    decreases |items|
  {
    if slist == null {
      return null, items;
    }
    assert Points(items, 0);
    if slist.next == null {
      assert |items| == 1;
      return slist, items;
    }
    var right, m := Halve(slist, items);
    assert items[..m] + items[m..] == items;
    head, sorted := SortHalves(slist, right, cmp, items[..m], items[m..]);
    SameLikesPermutes(items, sorted, DATA, cmp);
  }

  /** Sorts both halves and merges them. */
  method SortHalves(left: Node?, right: Node?, cmp: (int, int) -> int, ghost a: seq<Node>, ghost b: seq<Node>)
    returns (head: Node?, ghost sorted: seq<Node>)
    requires Chain(left, a) && Chain(right, b) && Distinct(a + b) && Consistent(cmp) && a != [] && b != []
    modifies a, b
    ensures Chain(head, sorted) && Sorted(sorted, DATA, cmp) && SameLikes(a + b, sorted, DATA, cmp)
    decreases |a| + |b|, 0
  {
    DistinctParts(a, b);
    var l, x := Sort(left, cmp, a);
    SameMembers(a, x);
    assert forall i :: 0 <= i < |b| ==> b[i] in b;
    var r, y := Sort(right, cmp, b);
    SameMembers(b, y);
    DistinctBoth(x, y);
    head := Merge(l, r, cmp, x, y, a + b);
    sorted := Merged(x, y, cmp);
    SortedParts(a, x, b, y, cmp);
  }
}
