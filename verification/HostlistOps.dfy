/** Push, pop, shift, nth, delete-nth and iteration, each against the plain sequence of hosts. */
module HostlistOps {
  import opened Options
  import opened Decimal
  import opened Seqs
  import opened Hosts
  import opened Hostranges
  import opened Hostlists

  // ---- push ----

  /** Does a pushed range r continue range t? */
  predicate Continues(t: Range, r: Range) {
    PrefixCmp(t, r) == 0 && t.hi == Pred(r.lo) && Combine(t, r).0
  }

  /** The ranges after pushing r: joined to the last range where possible. */
  function Push(rs: seq<Range>, r: Range): seq<Range> {
    var n := |rs| - 1;
    if n >= 0 && Continues(rs[n], r)
    then rs[n := Combine(rs[n], r).1.(hi := r.hi)]
    else rs + [r]
  }

  lemma {:induction false} JoinedRun(t: Range, r: Range)
    requires t.Ok() && r.Ok() && Continues(t, r)
    ensures var joined := Combine(t, r).1.(hi := r.hi);
            joined.Ok() && HostsOf(joined) == HostsOf(t) + HostsOf(r)
  {
    StrCmpAntisymmetric(t.prefix, r.prefix);
    CombineKeepsHosts(t, r);
    RunConcat(t.prefix, Combine(t, r).1.width, t.lo, t.hi, r.hi);
  }

  lemma {:induction false} LastGrows(front: seq<Range>, t: Range, r: Range, joined: Range)
    requires HostsOf(joined) == HostsOf(t) + HostsOf(r)
    ensures Expand(front + [joined]) == Expand(front + [t]) + HostsOf(r)
  {
    ExpandSnoc(front, t);
    ExpandSnoc(front, joined);
    Assoc(Expand(front), HostsOf(t), HostsOf(r));
  }

  lemma {:induction false} PushJoins(rs: seq<Range>, r: Range, joined: Range)
    requires AllOk(rs) && r.Ok() && rs != [] && Continues(rs[|rs| - 1], r)
    requires joined == Combine(rs[|rs| - 1], r).1.(hi := r.hi)
    ensures joined.Ok() && Expand(rs[|rs| - 1 := joined]) == Expand(rs) + HostsOf(r)
  {
    var n := |rs| - 1;
    JoinedRun(rs[n], r);
    assert rs == rs[..n] + [rs[n]] && rs[n := joined] == rs[..n] + [joined];
    LastGrows(rs[..n], rs[n], r, joined);
  }

  /** Pushing appends the hosts of r, joined or not. */
  lemma {:induction false} PushAppends(rs: seq<Range>, r: Range)
    requires AllOk(rs) && r.Ok()
    ensures AllOk(Push(rs, r))
    ensures Expand(Push(rs, r)) == Expand(rs) + HostsOf(r)
  {
    var n := |rs| - 1;
    if n >= 0 && Continues(rs[n], r) {
      PushJoins(rs, r, Combine(rs[n], r).1.(hi := r.hi));
    } else {
      ExpandSnoc(rs, r);
    }
  }

  method PushRange(hl: Hostlist, v: Range) returns (retval: int, v': Range)
    requires hl.Valid() && (v.single ==> v.Ok())
    modifies hl, hl.hr
    ensures hl.Valid() && (hl.hr == old(hl.hr) || fresh(hl.hr))
    ensures hl.Ranges() == Push(old(hl.Ranges()), v)
    ensures retval == hl.nhosts == old(hl.nhosts) + v.Count()
    ensures v' == v || (Printed(v.lo, v'.width) == Printed(v.lo, v.width) && v' == v.(width := v'.width))
  {
    v' := v;
    if hl.hr.Length == hl.nranges {
      hl.Grow();
    }
    var n := hl.nranges - 1;
    var joined := false;
    if hl.nranges > 0 && PrefixCmp(hl.hr[n], v) == 0 && hl.hr[n].hi == Pred(v.lo) {
      var w, w';
      joined, w, w' := CompareWidths(hl.hr[n].lo, hl.hr[n].width, v.lo, v.width);
      if joined {
        hl.Store(n, hl.hr[n].(width := w, hi := v.hi));
        v' := v.(width := w');
      }
    }
    if !joined {
      hl.Add(v);
    }
    hl.nhosts := hl.nhosts + v.Count();
    retval := hl.nhosts;
  }

  // ---- pop and shift ----

  lemma {:induction false} OneHost(r: Range)
    requires r.Ok() && r.Count() == 1
    ensures HostsOf(r) == [First(r)] && First(r) == Last(r)
  {}

  /** What is left of a record: nothing once it has become empty. */
  function Left(r: Range): seq<Range> { if Empty(r) then [] else [r] }

  /** Taking the last host out of the last range takes the last host off the list. */
  lemma {:induction false} ShrinkLast(front: seq<Range>, r: Range, r': Range)
    requires r.Ok() && (Empty(r') <==> r.Count() == 1)
    requires !Empty(r') ==> r'.Ok() && HostsOf(r) == HostsOf(r') + [Last(r)]
    ensures Expand(front + [r]) == Expand(front + Left(r')) + [Last(r)]
    ensures AllOk(front) ==> AllOk(front + Left(r'))
  {
    ExpandSnoc(front, r);
    if Empty(r') {
      OneHost(r);
      assert front + Left(r') == front;
    } else {
      ExpandSnoc(front, r');
      Assoc(Expand(front), HostsOf(r'), [Last(r)]);
    }
  }

  /** Taking the first host out of the first range takes the first host off the list. */
  lemma {:induction false} ShrinkFirst(r: Range, r': Range, back: seq<Range>)
    requires r.Ok() && (Empty(r') <==> r.Count() == 1)
    requires !Empty(r') ==> r'.Ok() && HostsOf(r) == [First(r)] + HostsOf(r')
    ensures Expand([r] + back) == [First(r)] + Expand(Left(r') + back)
    ensures AllOk(back) ==> AllOk(Left(r') + back)
  {
    ExpandOne(r);
    ExpandConcat([r], back);
    if Empty(r') {
      OneHost(r);
      assert Left(r') + back == back;
    } else {
      ExpandOne(r');
      ExpandConcat([r'], back);
      Assoc([First(r)], HostsOf(r'), Expand(back));
    }
  }

  /** Gives up the last range, or stores what is left of it. */
  method StoreLast(hl: Hostlist, r: Range)
    requires hl.Valid() && 0 < hl.nranges
    modifies hl`nranges, hl.hr
    ensures hl.Valid() && hl.Ranges() == old(hl.Ranges())[..old(hl.nranges) - 1] + Left(r)
  {
    if Empty(r) {
      hl.nranges := hl.nranges - 1;
      hl.hr[hl.nranges] := UNUSED;
    } else {
      hl.hr[hl.nranges - 1] := r;
    }
  }

  /** Gives up the first range, or stores what is left of it. */
  method StoreFirst(hl: Hostlist, r: Range)
    requires hl.Valid() && 0 < hl.nranges
    modifies hl`nranges, hl.hr
    ensures hl.Valid() && hl.Ranges() == Left(r) + old(hl.Ranges())[1..]
  {
    if Empty(r) {
      hl.DeleteRange(0);
    } else {
      hl.hr[0] := r;
    }
  }

  method Pop(hl: Hostlist) returns (host: Option<string>)
    requires hl.Sound()
    modifies hl`nranges, hl`nhosts, hl.hr
    ensures hl.Sound()
    ensures var before := old(hl.Contents());
            if before == [] then host == None && hl.Contents() == []
            else host == Some(Name(before[|before| - 1])) && hl.Contents() == before[..|before| - 1]
  {
    host := None;
    if hl.nhosts > 0 {
      ghost var rs := hl.Ranges();
      var n := hl.nranges - 1;
      assert rs == rs[..n] + [rs[n]];
      var s, r := PopHost(hl.hr[n]);
      host := Some(s);
      hl.nhosts := hl.nhosts - 1;
      StoreLast(hl, r);
      ShrinkLast(rs[..n], rs[n], r);
    }
  }

  method Shift(hl: Hostlist) returns (host: Option<string>)
    requires hl.Sound()
    modifies hl`nranges, hl`nhosts, hl.hr
    ensures hl.Sound()
    ensures var before := old(hl.Contents());
            if before == [] then host == None && hl.Contents() == []
            else host == Some(Name(before[0])) && hl.Contents() == before[1..]
  {
    host := None;
    if hl.nhosts > 0 {
      ghost var rs := hl.Ranges();
      assert rs == [rs[0]] + rs[1..];
      var s, r := ShiftHost(hl.hr[0]);
      host := Some(s);
      hl.nhosts := hl.nhosts - 1;
      StoreFirst(hl, r);
      ShrinkFirst(rs[0], r, rs[1..]);
    }
  }

  // ---- indexing ----

  /** Position n of the list is position n - |hosts before range i| of range i. */
  lemma {:induction false} HostInRange(rs: seq<Range>, i: nat, n: int)
    requires i < |rs| && |ExpandTo(rs, i)| <= n < |ExpandTo(rs, i)| + |HostsOf(rs[i])|
    ensures n < |Expand(rs)| && Expand(rs)[n] == HostsOf(rs[i])[n - |ExpandTo(rs, i)|]
  {
    ExpandSplit(rs, i);
    WithoutMiddle(Expand(rs[..i]), HostsOf(rs[i]), Expand(rs[i + 1..]), n - |ExpandTo(rs, i)|);
  }

  /** The text produced for host k of a range: its prefix followed by "%0*lu". */
  function Shown(r: Range, k: nat): string {
    if r.single then r.prefix else r.prefix + Format(r.lo + k, r.width)
  }

  lemma {:induction false} ShownInRange(r: Range, k: nat)
    requires r.Ok() && k < r.Count()
    ensures Name(HostsOf(r)[k]) == Shown(r, k)
  {
    if !r.single {
      RunAt(r.prefix, r.width, r.lo, r.hi, k);
    }
  }

  /** Host n of the list is shown by its range. */
  lemma {:induction false} ShownIsName(rs: seq<Range>, i: nat, k: nat)
    requires i < |rs| && rs[i].Ok() && k < rs[i].Count()
    ensures |ExpandTo(rs, i)| + k < |Expand(rs)|
    ensures Name(Expand(rs)[|ExpandTo(rs, i)| + k]) == Shown(rs[i], k)
  {
    HostInRange(rs, i, |ExpandTo(rs, i)| + k);
    ShownInRange(rs[i], k);
  }

  /** Position n of the list is position n - count of range i, or behind the last range. */
  ghost predicate At(rs: seq<Range>, n: nat, i: nat, count: nat) {
    i <= |rs| && count == |ExpandTo(rs, i)| <= n && (i < |rs| ==> n < count + rs[i].Count())
  }

  /** The scan for position n: its range, and the number of hosts before that range. */
  method Seek(hl: Hostlist, n: nat) returns (i: nat, count: nat)
    requires hl.Valid() && AllOk(hl.Ranges())
    ensures At(hl.Ranges(), n, i, count)
  {
    i, count := 0, 0;
    while i < hl.nranges && n > hl.hr[i].Count() - 1 + count
      invariant 0 <= i <= hl.nranges
      invariant count == |ExpandTo(hl.Ranges(), i)| <= n
    {
      count := count + hl.hr[i].Count();
      i := i + 1;
    }
  }

  lemma {:induction false} AtWithin(rs: seq<Range>, n: nat, i: nat, count: nat)
    requires AllOk(rs) && At(rs, n, i, count)
    ensures i < |rs| <==> n < |Expand(rs)|
  {
    if i < |rs| {
      ExpandToGrows(rs, i + 1, |rs|);
    }
  }

  method Nth(hl: Hostlist, n: nat) returns (host: Option<string>)
    requires hl.Sound()
    ensures host == if n < |hl.Contents()| then Some(Name(hl.Contents()[n])) else None
  {
    var i, count := Seek(hl, n);
    AtWithin(hl.Ranges(), n, i, count);
    host := None;
    if i < hl.nranges {
      ShownIsName(hl.Ranges(), i, n - count);
      host := Some(Shown(hl.hr[i], n - count));
    }
  }

  /** Well-formed ranges that hold the hosts of r except host k. */
  ghost predicate Leaves(r: Range, k: nat, parts: seq<Range>)
    requires k < |HostsOf(r)|
  {
    AllOk(parts) && Expand(parts) == Without(HostsOf(r), k)
  }

  lemma {:induction false} SpliceOk(rs: seq<Range>, i: nat, parts: seq<Range>)
    requires i < |rs| && AllOk(rs) && AllOk(parts)
    ensures AllOk(Splice(rs, i, parts))
  {}

  lemma {:induction false} SpliceExpands(rs: seq<Range>, i: nat, parts: seq<Range>)
    requires i < |rs|
    ensures Expand(Splice(rs, i, parts)) == Expand(rs[..i]) + Expand(parts) + Expand(rs[i + 1..])
  {
    ExpandThree(rs[..i], parts, rs[i + 1..]);
  }

  lemma {:induction false} HostRemoved(rs: seq<Range>, qs: seq<Range>, a: seq<Host>, b: seq<Host>, b': seq<Host>,
                                       c: seq<Host>, k: nat)
    requires Expand(rs) == a + b + c && Expand(qs) == a + b' + c && k < |b| && b' == Without(b, k)
    ensures |a| + k < |Expand(rs)| && Expand(qs) == Without(Expand(rs), |a| + k)
  {
    WithoutInMiddle(Expand(rs), Expand(qs), a, b, b', c, k);
  }

  /** Replacing range i by ranges that lack one of its hosts removes just that host from the list. */
  lemma {:induction false} ReplaceRemovesOne(rs: seq<Range>, i: nat, parts: seq<Range>, k: nat)
    requires i < |rs| && k < |HostsOf(rs[i])| && AllOk(rs) && Leaves(rs[i], k, parts)
    ensures |ExpandTo(rs, i)| + k < |Expand(rs)|
    ensures Expand(Splice(rs, i, parts)) == Without(Expand(rs), |ExpandTo(rs, i)| + k)
    ensures AllOk(Splice(rs, i, parts))
  {
    SpliceOk(rs, i, parts);
    ExpandSplit(rs, i);
    SpliceExpands(rs, i, parts);
    HostRemoved(rs, Splice(rs, i, parts), Expand(rs[..i]), HostsOf(rs[i]), Expand(parts), Expand(rs[i + 1..]), k);
  }

  lemma {:induction false} TwoRanges(a: Range, b: Range)
    ensures Expand([a, b]) == HostsOf(a) + HostsOf(b)
  {
    ExpandOne(a);
    ExpandSnoc([a], b);
    assert [a] + [b] == [a, b];
  }

  lemma {:induction false} LeavesNothing(r: Range, k: nat)
    requires r.Ok() && r.Count() == 1 && k == 0
    ensures Leaves(r, k, [])
  {
    OneHost(r);
  }

  lemma {:induction false} LeavesOne(r: Range, k: nat, a: Range)
    requires k < |HostsOf(r)| && a.Ok() && HostsOf(a) == Without(HostsOf(r), k)
    ensures Leaves(r, k, [a])
  {
    ExpandOne(a);
  }

  lemma {:induction false} LeavesTwo(r: Range, k: nat, a: Range, b: Range)
    requires k < |HostsOf(r)| && a.Ok() && b.Ok() && HostsOf(a) + HostsOf(b) == Without(HostsOf(r), k)
    ensures Leaves(r, k, [a, b])
  {
    TwoRanges(a, b);
  }

  /** What is left of r without its host k: nothing, one range, or two. */
  method Remains(r: Range, k: nat) returns (parts: seq<Range>)
    requires r.Ok() && k < r.Count()
    ensures |parts| <= 2 && Leaves(r, k, parts)
  {
    if r.single {
      LeavesNothing(r, k);
      return [];
    }
    var r', upper := DeleteHost(r, r.lo + k);
    if upper.Some? {
      LeavesTwo(r, k, r', upper.value);
      parts := [r', upper.value];
    } else if Empty(r') {
      LeavesNothing(r, k);
      parts := [];
    } else {
      LeavesOne(r, k, r');
      parts := [r'];
    }
  }

  /** Puts the parts left of range i in its place: the range disappears, shrinks or splits. */
  method Replace(hl: Hostlist, i: nat, parts: seq<Range>)
    requires hl.Valid() && i < hl.nranges && |parts| <= 2
    modifies hl`hr, hl`nranges, hl.hr
    ensures hl.Valid() && (hl.hr == old(hl.hr) || fresh(hl.hr))
    ensures hl.Ranges() == Splice(old(hl.Ranges()), i, parts)
  {
    ghost var rs := hl.Ranges();
    if |parts| == 0 {
      hl.DeleteRange(i);
      SpliceNone(rs, i);
      assert parts == [];
    } else {
      hl.Store(i, parts[0]);
      if |parts| == 1 {
        SpliceOne(rs, i, parts[0]);
        assert parts == [parts[0]];
      } else {
        SpliceTwo(rs, i, parts[0], parts[1]);
        assert parts == [parts[0], parts[1]];
        hl.InsertRange(parts[1], i + 1);
      }
    }
  }

  /** Puts what is left of range i without its host k in its place. */
  method ReplaceWithout(hl: Hostlist, i: nat, parts: seq<Range>, ghost k: nat)
    requires hl.Valid() && AllOk(hl.Ranges()) && i < hl.nranges && |parts| <= 2
    requires k < |HostsOf(hl.Ranges()[i])| && Leaves(hl.Ranges()[i], k, parts)
    modifies hl`hr, hl`nranges, hl.hr
    ensures hl.Valid() && (hl.hr == old(hl.hr) || fresh(hl.hr)) && AllOk(hl.Ranges())
    ensures |ExpandTo(old(hl.Ranges()), i)| + k < |old(hl.Contents())|
    ensures hl.Contents() == Without(old(hl.Contents()), |ExpandTo(old(hl.Ranges()), i)| + k)
  {
    ReplaceRemovesOne(hl.Ranges(), i, parts, k);
    Replace(hl, i, parts);
  }

  /** Takes host k of range i off the list. */
  method DeleteAt(hl: Hostlist, i: nat, k: nat)
    requires hl.Valid() && AllOk(hl.Ranges()) && i < hl.nranges && k < hl.hr[i].Count()
    modifies hl`hr, hl`nranges, hl.hr
    ensures hl.Valid() && (hl.hr == old(hl.hr) || fresh(hl.hr)) && AllOk(hl.Ranges())
    ensures |ExpandTo(old(hl.Ranges()), i)| + k < |old(hl.Contents())|
    ensures hl.Contents() == Without(old(hl.Contents()), |ExpandTo(old(hl.Ranges()), i)| + k)
  {
    var parts := Remains(hl.hr[i], k);
    ReplaceWithout(hl, i, parts, k);
  }

  /** Deletes host n.  Index nhosts passes the source's assertion, deletes nothing, and still lowers the count. */
  method DeleteNth(hl: Hostlist, n: nat)
    requires hl.Sound() && n <= hl.nhosts
    modifies hl, hl.hr
    ensures hl.Valid() && (hl.hr == old(hl.hr) || fresh(hl.hr))
    ensures AllOk(hl.Ranges()) && hl.nhosts == old(hl.nhosts) - 1
    ensures hl.Sound() <==> n < old(hl.nhosts)
    ensures hl.Contents() == if n < old(hl.nhosts) then Without(old(hl.Contents()), n) else old(hl.Contents())
  {
    var i, count := Seek(hl, n);
    AtWithin(hl.Ranges(), n, i, count);
    if i < hl.nranges {
      DeleteAt(hl, i, n - count);
    }
    hl.nhosts := hl.nhosts - 1;
  }

  // ---- iteration ----

  /** How a step past host `depth` of range idx counts. */
  lemma {:induction false} CursorSteps(rs: seq<Range>, idx: nat, depth: int)
    requires AllOk(rs) && idx < |rs| && -1 <= depth < rs[idx].Count()
    ensures depth + 1 == rs[idx].Count() ==> |ExpandTo(rs, idx + 1)| == |ExpandTo(rs, idx)| + depth + 1
    ensures |ExpandTo(rs, idx)| + depth + 1 <= |Expand(rs)|
    ensures |ExpandTo(rs, idx)| + depth + 1 == |Expand(rs)| <==> idx + 1 == |rs| && depth + 1 == rs[idx].Count()
  {
    ExpandToGrows(rs, idx + 1, |rs|);
  }

  class HostIterator {
    const hl: Hostlist
    var idx: nat
    var depth: int

    /** Before the first host, on a host, or past the last range. */
    ghost predicate Valid()
      reads this, hl, hl.hr
    {
      && hl.Sound() && idx <= hl.nranges
      && (idx == hl.nranges || (depth == -1 && idx == 0) || 0 <= depth < hl.hr[idx].Count())
    }

    /** How many hosts have been returned. */
    ghost function Position(): int
      reads this, hl, hl.hr
      requires Valid()
    {
      |ExpandTo(hl.Ranges(), idx)| + if idx == hl.nranges then 0 else depth + 1
    }

    constructor (hl: Hostlist)
      requires hl.Sound()
      ensures this.hl == hl && Valid() && Position() == 0
    {
      this.hl := hl;
      idx, depth := 0, -1;
    }

    method Reset()
      requires hl.Sound()
      modifies this
      ensures Valid() && Position() == 0
    {
      idx, depth := 0, -1;
    }

    method Advance()
      requires Valid()
      modifies this
      ensures Valid()
      ensures old(Position()) == hl.nhosts ==> idx == hl.nranges
      ensures idx < hl.nranges ==> depth >= 0
      ensures old(Position()) < hl.nhosts ==>
                && idx < hl.nranges
                && Position() == old(Position()) + 1 == |ExpandTo(hl.Ranges(), idx)| + depth + 1
    {
      if idx >= hl.nranges {
        return;
      }
      CursorSteps(hl.Ranges(), idx, depth);
      depth := depth + 1;
      if depth > hl.hr[idx].hi - hl.hr[idx].lo {
        depth := 0;
        idx := idx + 1;
      }
    }

    /** Calls return the hosts of an unmodified list in order, each once, and then nothing. */
    method Next() returns (host: Option<string>)
      requires Valid()
      modifies this
      ensures Valid()
      ensures old(Position()) == hl.nhosts ==> host == None && Position() == old(Position())
      ensures old(Position()) < hl.nhosts ==>
                host == Some(Name(hl.Contents()[old(Position())])) && Position() == old(Position()) + 1
    {
      Advance();
      if idx >= hl.nranges {
        return None;
      }
      ShownIsName(hl.Ranges(), idx, depth);
      host := Some(Shown(hl.hr[idx], depth));
    }
  }
}
