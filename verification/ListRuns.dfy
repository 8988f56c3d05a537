/** Whole runs of a list's operations, with any number of iterators: what the iterators return over time. */
module ListRuns {
  import opened Lists
  import opened Options
  import opened ListSteps
  import opened StableSorting

  /** What a call showed: these nodes were in the list when an iterator began, or these have left the list. */
  datatype Event =
    | Begins(i: ListIterator, here: set<Node>)
    | AllBegin(here: set<Node>)
    | Returns(i: ListIterator, n: Node)
    | Ends(i: ListIterator)
    | Loses(gone: set<Node>)

  ghost predicate Restarts(e: Event, i: ListIterator) { e.AllBegin? || (e.Begins? && e.i == i) }

  /** The nodes the iterator has returned since it began. */
  ghost function Seen(log: seq<Event>, i: ListIterator): set<Node> {
    if log == [] then {}
    else
      var e, before := log[|log| - 1], Seen(log[..|log| - 1], i);
      if Restarts(e, i) then {} else if e.Returns? && e.i == i then before + {e.n} else before
  }

  /** The nodes in the list when the iterator began. */
  ghost function Initial(log: seq<Event>, i: ListIterator): set<Node> {
    if log == [] then {}
    else
      var e := log[|log| - 1];
      if Restarts(e, i) then e.here else Initial(log[..|log| - 1], i)
  }

  /** The nodes that have left the list. */
  ghost function Gone(log: seq<Event>): set<Node> {
    if log == [] then {}
    else
      var e, before := log[|log| - 1], Gone(log[..|log| - 1]);
      if e.Loses? then before + e.gone else before
  }

  /**
   * Only a node that the iterator has not returned since it began, and that has not left the list, is returned; and at
   * the end every node it began with has been returned or has left the list.  Nodes that have left never come back.
   */
  ghost predicate Lawful(log: seq<Event>, e: Event) {
    match e
    case Begins(_, here) => here !! Gone(log)
    case AllBegin(here) => here !! Gone(log)
    case Returns(i, n) => n !in Seen(log, i) && n !in Gone(log)
    case Ends(i) => Initial(log, i) <= Seen(log, i) + Gone(log)
    case _ => true
  }

  ghost predicate AllLawful(log: seq<Event>) {
    log != [] ==> AllLawful(log[..|log| - 1]) && Lawful(log[..|log| - 1], log[|log| - 1])
  }

  lemma {:induction false} LawfulAt(log: seq<Event>, k: nat)
    requires AllLawful(log) && k < |log|
    ensures Lawful(log[..k], log[k])
  {
    if k < |log| - 1 {
      LawfulAt(log[..|log| - 1], k);
      assert log[..|log| - 1][..k] == log[..k];
    }
  }

  /** Between a and b the iterator does not begin again. */
  ghost predicate GoesOn(log: seq<Event>, a: nat, b: nat, i: ListIterator)
    requires b <= |log|
  {
    forall c :: a < c < b ==> !Restarts(log[c], i)
  }

  lemma {:induction false} SeenSince(log: seq<Event>, a: nat, b: nat, i: ListIterator, n: Node)
    requires a < b <= |log| && log[a] == Returns(i, n) && GoesOn(log, a, b, i)
    ensures n in Seen(log[..b], i)
  {
    assert log[..b][..b - 1] == log[..b - 1];
    if a < b - 1 {
      SeenSince(log, a, b - 1, i, n);
    }
  }

  lemma {:induction false} GoneSince(log: seq<Event>, a: nat, b: nat, n: Node)
    requires a < b <= |log| && log[a].Loses? && n in log[a].gone
    ensures n in Gone(log[..b])
  {
    assert log[..b][..b - 1] == log[..b - 1];
    if a < b - 1 {
      GoneSince(log, a, b - 1, n);
    }
  }

  lemma {:induction false} InitialSince(log: seq<Event>, a: nat, b: nat, i: ListIterator)
    requires a < b <= |log| && Restarts(log[a], i) && GoesOn(log, a, b, i)
    ensures Initial(log[..b], i) == log[a].here
  {
    assert log[..b][..b - 1] == log[..b - 1];
    if a < b - 1 {
      InitialSince(log, a, b - 1, i);
    }
  }

  lemma {:induction false} WhenSeen(log: seq<Event>, a: nat, b: nat, i: ListIterator, n: Node) returns (c: nat)
    requires a < b <= |log| && Restarts(log[a], i) && n in Seen(log[..b], i)
    ensures a < c < b && log[c] == Returns(i, n)
  {
    assert log[..b][..b - 1] == log[..b - 1];
    c := b - 1;
    if log[c] != Returns(i, n) {
      c := WhenSeen(log, a, b - 1, i, n);
    }
  }

  lemma {:induction false} WhenGone(log: seq<Event>, b: nat, n: Node) returns (c: nat)
    requires b <= |log| && n in Gone(log[..b])
    ensures c < b && log[c].Loses? && n in log[c].gone
  {
    assert log[..b][..b - 1] == log[..b - 1];
    c := b - 1;
    if !(log[c].Loses? && n in log[c].gone) {
      c := WhenGone(log, b - 1, n);
    }
  }

  /** Within a run, no iterator returns a node twice unless it begins again in between. */
  lemma {:induction false} NeverTwice(log: seq<Event>, a: nat, b: nat, i: ListIterator, n: Node)
    requires AllLawful(log) && a < b < |log| && log[a] == log[b] == Returns(i, n)
    ensures !GoesOn(log, a, b, i)
  {
    LawfulAt(log, b);
    if GoesOn(log, a, b, i) {
      SeenSince(log, a, b, i, n);
    }
  }

  /** No iterator returns a node that has been removed, whoever removed it and wherever the iterator stood. */
  lemma {:induction false} NeverRemoved(log: seq<Event>, a: nat, b: nat, i: ListIterator, n: Node)
    requires AllLawful(log) && a < b < |log| && log[a].Loses? && n in log[a].gone
    ensures log[b] != Returns(i, n)
  {
    LawfulAt(log, b);
    GoneSince(log, a, b, n);
  }

  /** An iterator that comes to the end has met every node it began with, but for those removed on the way. */
  lemma {:induction false} MissesNone(log: seq<Event>, a: nat, b: nat, i: ListIterator, n: Node) returns (c: nat)
    requires AllLawful(log) && a < b < |log| && Restarts(log[a], i) && n in log[a].here
    requires log[b] == Ends(i) && GoesOn(log, a, b, i)
    ensures a < c < b && (log[c] == Returns(i, n) || (log[c].Loses? && n in log[c].gone))
  {
    LawfulAt(log, a);
    LawfulAt(log, b);
    InitialSince(log, a, b, i);
    if n in Seen(log[..b], i) {
      c := WhenSeen(log, a, b, i, n);
    } else {
      c := WhenGone(log, b, n);
      if c < a {
        GoneSince(log, c, a, n);
      }
    }
  }

  // ---- running ----

  ghost predicate IteratorTells(i: ListIterator, nodes: seq<Node>, log: seq<Event>)
    reads i
  {
    && i.returned == Seen(log, i) && i.initial == Initial(log, i)
    && forall n :: n in i.initial ==> n in nodes || n in Gone(log)
  }

  /** The iterators' records are those of the log, and the nodes that have left the list are not in it. */
  ghost predicate Tells(l: List, log: seq<Event>)
    reads l, l.iNext
  {
    && (forall n :: n in l.nodes ==> n !in Gone(log))
    && forall i :: i in l.iNext ==> IteratorTells(i, l.nodes, log)
  }

  lemma {:induction false} SeenOn(log: seq<Event>, e: Event, i: ListIterator)
    ensures Seen(log + [e], i)
         == if Restarts(e, i) then {} else if e.Returns? && e.i == i then Seen(log, i) + {e.n} else Seen(log, i)
    ensures Initial(log + [e], i) == if Restarts(e, i) then e.here else Initial(log, i)
  {
    assert (log + [e])[..|log|] == log;
  }

  lemma {:induction false} GoneOn(log: seq<Event>, e: Event)
    ensures Gone(log + [e]) == if e.Loses? then Gone(log) + e.gone else Gone(log)
  {
    assert (log + [e])[..|log|] == log;
  }

  /** What a call shows: the iterator it lets begin, the node returned, the end reached, or the nodes that have gone. */
  ghost function Shown(op: Op, s: Snapshot, s': Snapshot): Event
    requires s.Fit()
  {
    if Edits(op) then Loses(All(s.nodes) - All(s'.nodes))
    else if op.Create? && |s'.its| > 0 then Begins(s'.its[0], All(s'.nodes))
    else if op.Reset? && op.i < |s.its| then Begins(s.its[op.i], All(s'.nodes))
    else if op.Sort? && |s.nodes| > 1 then AllBegin(All(s'.nodes))
    else if op.Next? && op.i < |s.its| then
      var k := s.places[op.i].Next();
      if k < |s.nodes| then Returns(s.its[op.i], s.nodes[k]) else Ends(s.its[op.i])
    else Loses({})
  }

  /** The calls on the items. */
  method MakeEdit(l: List, op: Op) returns (v: Option<Data>)
    requires l.Valid() && Edits(op)
    modifies l`head, l`tail, l`count, l`nodes, l.nodes, l.iNext
    ensures l.Valid() && AllKept(l.iNext) && OnlyFresh(l, old(l.nodes), old(l.iNext))
    ensures old(Shot(l)).Fit() && Did(op, old(Shot(l)), v, Shot(l))
  {
    ShotFits(l);
    v := None;
    match op
    case Append(x) => DoAppend(l, x);
    case Push(x) => DoPush(l, x);
    case Pop => v := DoPop(l);
    case DeleteAll(f) =>
      var n := DoDeleteAll(l, f);
      v := Some(n);
    case Insert(i, x) =>
      if i < |l.iNext| {
        DoInsert(l, i, x);
      }
    case Remove(i) =>
      if i < |l.iNext| {
        v := DoRemove(l, i);
      }
  }

  method Edit(l: List, op: Op, ghost log: seq<Event>, ghost gone: set<Node>) returns (v: Option<Data>, ghost e: Event)
    requires l.Valid() && Tells(l, log) && Edits(op) && gone == Gone(log)
    modifies l`head, l`tail, l`count, l`nodes, l.nodes, l.iNext
    ensures l.Valid() && Tells(l, log + [e]) && OnlyFresh(l, old(l.nodes), old(l.iNext))
    ensures old(Shot(l)).Fit() && Did(op, old(Shot(l)), v, Shot(l)) && e == Shown(op, old(Shot(l)), Shot(l))
  {
    v := MakeEdit(l, op);
    e := Loses(All(old(l.nodes)) - All(l.nodes));
    forall i | i in l.iNext
      ensures IteratorTells(i, l.nodes, log + [e])
    {
      assert old(IteratorTells(i, l.nodes, log)) && Kept(i);
      SeenOn(log, e, i);
    }
    GoneOn(log, e);
  }

  /** Nothing is done, and nothing shown. */
  lemma {:induction false} NothingTells(l: List, log: seq<Event>)
    requires Tells(l, log)
    ensures Tells(l, log + [Loses({})])
  {
    forall i | i in l.iNext
      ensures IteratorTells(i, l.nodes, log + [Loses({})])
    {
      SeenOn(log, Loses({}), i);
      GoneOn(log, Loses({}));
    }
    GoneOn(log, Loses({}));
  }

  /** The iterator's next item. */
  method Advance(l: List, j: nat, ghost log: seq<Event>) returns (v: Option<Data>, ghost e: Event)
    requires l.Valid() && Tells(l, log) && j < |l.iNext|
    modifies l.iNext[j]
    ensures l.Valid() && Tells(l, log + [e]) && Lawful(log, e)
    ensures old(Shot(l)).Fit() && Did(Next(j), old(Shot(l)), v, Shot(l)) && e == Shown(Next(j), old(Shot(l)), Shot(l))
  {
    ghost var i, k := l.iNext[j], l.iNext[j].place.Next();
    assert IteratorTells(i, l.nodes, log);
    v := DoNext(l, j);
    e := if k < |l.nodes| then Returns(i, l.nodes[k]) else Ends(i);
    forall x | x in l.iNext
      ensures IteratorTells(x, l.nodes, log + [e])
    {
      assert old(IteratorTells(x, l.nodes, log));
      SeenOn(log, e, x);
      GoneOn(log, e);
    }
    GoneOn(log, e);
  }

  /** A new iterator begins. */
  method Start(l: List, ghost log: seq<Event>) returns (ghost e: Event)
    requires l.Valid() && Tells(l, log)
    modifies l`iNext
    ensures l.Valid() && Tells(l, log + [e]) && Lawful(log, e) && OnlyFresh(l, old(l.nodes), old(l.iNext))
    ensures old(Shot(l)).Fit() && Did(Create, old(Shot(l)), None, Shot(l)) && e == Shown(Create, old(Shot(l)), Shot(l))
  {
    ShotFits(l);
    var new' := DoCreate(l);
    e := Begins(new', All(l.nodes));
    forall i | i in l.iNext
      ensures IteratorTells(i, l.nodes, log + [e])
    {
      assert i == new' || (i in old(l.iNext) && IteratorTells(i, l.nodes, log));
      SeenOn(log, e, i);
      GoneOn(log, e);
    }
    GoneOn(log, e);
  }

  /** An iterator begins again. */
  method StartAgain(l: List, j: nat, ghost log: seq<Event>) returns (ghost e: Event)
    requires l.Valid() && Tells(l, log) && j < |l.iNext|
    modifies l.iNext[j]
    ensures l.Valid() && Tells(l, log + [e]) && Lawful(log, e)
    ensures old(Shot(l)).Fit() && Did(Reset(j), old(Shot(l)), None, Shot(l))
    ensures e == Shown(Reset(j), old(Shot(l)), Shot(l))
  {
    ShotFits(l);
    e := Begins(l.iNext[j], All(l.nodes));
    DoReset(l, j);
    forall i | i in l.iNext
      ensures IteratorTells(i, l.nodes, log + [e])
    {
      assert old(IteratorTells(i, l.nodes, log));
      SeenOn(log, e, i);
      GoneOn(log, e);
    }
    GoneOn(log, e);
  }

  /** An iterator is given up. */
  method GiveUp(l: List, j: nat, ghost log: seq<Event>) returns (ghost e: Event)
    requires l.Valid() && Tells(l, log) && j < |l.iNext|
    modifies l`iNext
    ensures l.Valid() && Tells(l, log + [e]) && Lawful(log, e) && OnlyFresh(l, old(l.nodes), old(l.iNext))
    ensures old(Shot(l)).Fit() && Did(Destroy(j), old(Shot(l)), None, Shot(l))
    ensures e == Shown(Destroy(j), old(Shot(l)), Shot(l))
  {
    ShotFits(l);
    e := Loses({});
    DoDestroy(l, j);
    assert forall i :: i in l.iNext ==> i in old(l.iNext);
    NothingTells(l, log);
  }

  /** Sorting makes every iterator begin again, unless there was nothing to sort. */
  method Arrange(l: List, cmp: (int, int) -> int, ghost log: seq<Event>) returns (ghost e: Event)
    requires l.Valid() && Tells(l, log) && Consistent(cmp)
    modifies l`head, l`tail, l`nodes, l.nodes, l.iNext
    ensures l.Valid() && Tells(l, log + [e]) && Lawful(log, e) && OnlyFresh(l, old(l.nodes), old(l.iNext))
    ensures old(Shot(l)).Fit() && Did(Sort(cmp), old(Shot(l)), None, Shot(l))
    ensures e == Shown(Sort(cmp), old(Shot(l)), Shot(l))
  {
    ShotFits(l);
    DoSort(l, cmp);
    e := if |old(l.nodes)| > 1 then AllBegin(All(l.nodes)) else Loses({});
    assert forall n :: n in l.nodes <==> n in All(l.nodes);
    assert forall n :: n in old(l.nodes) <==> n in All(old(l.nodes));
    forall i | i in l.iNext
      ensures IteratorTells(i, l.nodes, log + [e])
    {
      assert old(IteratorTells(i, l.nodes, log));
      SeenOn(log, e, i);
      GoneOn(log, e);
    }
    GoneOn(log, e);
  }

  /** A call made, for an iterator that is there if it needs one. */
  method Call(l: List, op: Op, ghost log: seq<Event>) returns (v: Option<Data>, ghost e: Event)
    requires l.Valid() && Tells(l, log) && (op.Sort? ==> Consistent(op.cmp))
    requires op.Reset? || op.Destroy? || op.Next? ==> op.i < |l.iNext|
    modifies l, l.nodes, l.iNext
    ensures l.Valid() && Tells(l, log + [e]) && Lawful(log, e) && OnlyFresh(l, old(l.nodes), old(l.iNext))
    ensures old(Shot(l)).Fit() && Did(op, old(Shot(l)), v, Shot(l)) && e == Shown(op, old(Shot(l)), Shot(l))
  {
    v := None;
    if Edits(op) {
      v, e := Edit(l, op, log, Gone(log));
    } else if op.Next? {
      v, e := Advance(l, op.i, log);
    } else if op.Sort? {
      e := Arrange(l, op.cmp, log);
    } else if op.Destroy? {
      e := GiveUp(l, op.i, log);
    } else if op.Reset? {
      e := StartAgain(l, op.i, log);
    } else {
      e := Start(l, log);
    }
  }

  method Step(l: List, op: Op, ghost log: seq<Event>) returns (v: Option<Data>, ghost e: Event)
    requires l.Valid() && Tells(l, log) && (op.Sort? ==> Consistent(op.cmp))
    modifies l, l.nodes, l.iNext
    ensures l.Valid() && Tells(l, log + [e]) && Lawful(log, e) && OnlyFresh(l, old(l.nodes), old(l.iNext))
    ensures old(Shot(l)).Fit() && Did(op, old(Shot(l)), v, Shot(l)) && e == Shown(op, old(Shot(l)), Shot(l))
  {
    if (op.Reset? || op.Destroy? || op.Next?) && op.i >= |l.iNext| {
      ShotFits(l);
      NothingTells(l, log);
      v, e := None, Loses({});
    } else {
      v, e := Call(l, op, log);
    }
  }

  /** Call k led from one state to the next, with its answer and what it showed. */
  ghost predicate Made(ops: seq<Op>, vs: seq<Option<Data>>, events: seq<Event>, shots: seq<Snapshot>, k: int) {
    0 <= k < |ops| && k < |vs| && k < |events| && k + 1 < |shots| ==>
      shots[k].Fit() && Did(ops[k], shots[k], vs[k], shots[k + 1]) && events[k] == Shown(ops[k], shots[k], shots[k + 1])
  }

  /** The states, answers and events of the calls ops, each call leading from one state to the next. */
  ghost predicate Trace(ops: seq<Op>, vs: seq<Option<Data>>, events: seq<Event>, shots: seq<Snapshot>) {
    |vs| == |events| == |ops| && |shots| == |ops| + 1 && forall k :: Made(ops, vs, events, shots, k)
  }

  lemma {:induction false} TraceOn(ops: seq<Op>, vs: seq<Option<Data>>, events: seq<Event>, shots: seq<Snapshot>,
      op: Op, v: Option<Data>, e: Event, s': Snapshot)
    requires Trace(ops, vs, events, shots)
    requires var s := shots[|ops|]; s.Fit() && Did(op, s, v, s') && e == Shown(op, s, s')
    ensures Trace(ops + [op], vs + [v], events + [e], shots + [s'])
  {
    forall k
      ensures Made(ops + [op], vs + [v], events + [e], shots + [s'], k)
    {
      assert Made(ops, vs, events, shots, k);
    }
  }

  lemma {:induction false} LawfulOn(log: seq<Event>, events: seq<Event>, e: Event)
    requires AllLawful(log + events) && Lawful(log + events, e)
    ensures AllLawful(log + (events + [e])) && log + (events + [e]) == (log + events) + [e]
  {
    assert log + (events + [e]) == (log + events) + [e];
    assert ((log + events) + [e])[..|log + events|] == log + events;
  }

  lemma {:induction false} Members<T>(s: seq<T>)
    ensures forall k :: 0 <= k < |s| ==> s[k] in s
  {}

  /** One more call of a run. */
  method RunOn(l: List, ops: seq<Op>, op: Op, vs: seq<Option<Data>>, ghost log: seq<Event>, ghost events: seq<Event>,
               ghost shots: seq<Snapshot>)
    returns (v: Option<Data>, ghost e: Event)
    requires l.Valid() && Tells(l, log + events) && AllLawful(log + events) && (op.Sort? ==> Consistent(op.cmp))
    requires Trace(ops, vs, events, shots) && shots[|ops|] == Shot(l)
    modifies l, l.nodes, l.iNext
    ensures l.Valid() && Tells(l, log + (events + [e])) && AllLawful(log + (events + [e]))
    ensures OnlyFresh(l, old(l.nodes), old(l.iNext))
    ensures Trace(ops + [op], vs + [v], events + [e], shots + [Shot(l)])
  {
    v, e := Step(l, op, log + events);
    LawfulOn(log, events, e);
    TraceOn(ops, vs, events, shots, op, v, e, Shot(l));
  }

  /**
   * Any calls in any order on a list with any iterators, whose record so far is log.  Every call does to the list and
   * its iterators what it is for, and gives its answer; and the record that results, of what the iterators returned
   * and what was removed, is lawful.
   */
  method Run(l: List, ops: seq<Op>, ghost log: seq<Event>)
    returns (vs: seq<Option<Data>>, ghost events: seq<Event>, ghost shots: seq<Snapshot>)
    requires l.Valid() && Tells(l, log) && AllLawful(log)
    requires forall k :: 0 <= k < |ops| && ops[k].Sort? ==> Consistent(ops[k].cmp)
    modifies l, l.nodes, l.iNext
    ensures Trace(ops, vs, events, shots) && shots[0] == old(Shot(l)) && shots[|ops|] == Shot(l)
    ensures l.Valid() && Tells(l, log + events) && AllLawful(log + events)
  {
    vs, events, shots := [], [], [Shot(l)];
    assert log + [] == log && ops[..0] == [];
    for k := 0 to |ops|
      invariant l.Valid() && Tells(l, log + events) && AllLawful(log + events)
      invariant OnlyFresh(l, old(l.nodes), old(l.iNext))
      invariant Trace(ops[..k], vs, events, shots) && shots[0] == old(Shot(l)) && shots[k] == Shot(l)
    {
      Members(l.nodes);
      Members(l.iNext);
      var v;
      ghost var e;
      v, e := RunOn(l, ops[..k], ops[k], vs, log, events, shots);
      assert ops[..k] + [ops[k]] == ops[..k + 1];
      vs, events, shots := vs + [v], events + [e], shots + [Shot(l)];
    }
    assert ops[..|ops|] == ops;
  }

  /** A list without iterators can be the start of a run. */
  lemma {:induction false} EmptyLogTells(l: List)
    requires l.iNext == []
    ensures Tells(l, []) && AllLawful([])
  {}

  /** The node that call b returns when it asks an iterator for its next item; null when it does not, or at the end. */
  ghost function NextNode(ops: seq<Op>, shots: seq<Snapshot>, b: nat): Node?
    requires b < |ops| && b < |shots| && shots[b].Fit()
  {
    if ops[b].Next? && ops[b].i < |shots[b].its| then NodeAt(shots[b].nodes, shots[b].places[ops[b].i].Next()) else null
  }

  lemma {:induction false} NextReturns(ops: seq<Op>, vs: seq<Option<Data>>, events: seq<Event>, shots: seq<Snapshot>,
      b: nat)
    requires Trace(ops, vs, events, shots) && b < |ops|
    ensures shots[b].Fit()
    ensures var n := NextNode(ops, shots, b); n != null ==>
              vs[b] == Some(n.data) && events[b] == Returns(shots[b].its[ops[b].i], n)
  {
    assert Made(ops, vs, events, shots, b);
  }

  /** Two answers of one iterator in a run are different nodes, unless it began again in between. */
  lemma {:induction false} NextDiffers(log: seq<Event>, ops: seq<Op>, vs: seq<Option<Data>>, events: seq<Event>,
      shots: seq<Snapshot>, a: nat, b: nat)
    requires Trace(ops, vs, events, shots) && AllLawful(log + events) && a < b < |ops|
    requires shots[a].Fit() && NextNode(ops, shots, a) != null && shots[b].Fit() && NextNode(ops, shots, b) != null
    requires shots[a].its[ops[a].i] == shots[b].its[ops[b].i]
    requires GoesOn(log + events, |log| + a, |log| + b, shots[a].its[ops[a].i])
    ensures NextNode(ops, shots, a) != NextNode(ops, shots, b)
  {
    NextReturns(ops, vs, events, shots, a);
    NextReturns(ops, vs, events, shots, b);
    if NextNode(ops, shots, a) == NextNode(ops, shots, b) {
      NeverTwice(log + events, |log| + a, |log| + b, shots[a].its[ops[a].i], NextNode(ops, shots, a));
    }
  }

  /** A node that a call of a run has taken out is no later call's answer. */
  lemma {:induction false} TakenStaysAway(log: seq<Event>, ops: seq<Op>, vs: seq<Option<Data>>, events: seq<Event>,
      shots: seq<Snapshot>, a: nat, b: nat, n: Node)
    requires Trace(ops, vs, events, shots) && AllLawful(log + events) && a < b < |ops|
    requires Edits(ops[a]) && n in shots[a].nodes && n !in shots[a + 1].nodes
    ensures shots[b].Fit() && NextNode(ops, shots, b) != n
  {
    NextReturns(ops, vs, events, shots, b);
    assert Made(ops, vs, events, shots, a);
    if NextNode(ops, shots, b) == n {
      NeverRemoved(log + events, |log| + a, |log| + b, shots[b].its[ops[b].i], n);
    }
  }
}
