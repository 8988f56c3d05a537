/** The library sort over the range comparator, and replacing two neighbours of a list. */
module HostlistSort {
  import opened Seqs
  import opened Hosts
  import opened Hostranges
  import opened Hostlists
  import opened Agreement
  import HostlistOps

  function Firsts(rs: seq<Range>): (fs: seq<Host>)
    ensures |fs| == |rs| && forall k :: 0 <= k < |rs| ==> fs[k] == First(rs[k])
  {
    seq(|rs|, k requires 0 <= k < |rs| => First(rs[k]))
  }

  /** Each host is no later than its successor. */
  ghost predicate Adjacent(fs: seq<Host>) {
    forall k :: 0 < k < |fs| ==> Below(fs[k - 1], fs[k])
  }

  /** a and b could not be one range: b does not run on from a, or not with the same width. */
  ghost predicate Gap(a: Range, b: Range) {
    a.prefix != b.prefix || a.single || b.single || a.hi + 1 != b.lo || !Combine(a, b).0
  }

  /** From range i on, no range could be one with the range before it. */
  ghost predicate Gaps(rs: seq<Range>, i: int) {
    forall k :: i < k < |rs| && 0 < k ==> Gap(rs[k - 1], rs[k])
  }

  // ---- replacing two neighbours ----

  /** The hosts around the neighbours j - 1 and j. */
  lemma {:induction false} ExpandPair(rs: seq<Range>, j: nat, mid: seq<Range>)
    requires 0 < j < |rs|
    ensures Expand(rs) == Expand(rs[..j - 1]) + (HostsOf(rs[j - 1]) + HostsOf(rs[j])) + Expand(rs[j + 1..])
    ensures Expand(rs[..j - 1] + mid + rs[j + 1..]) == Expand(rs[..j - 1]) + Expand(mid) + Expand(rs[j + 1..])
  {
    assert rs == rs[..j - 1] + [rs[j - 1], rs[j]] + rs[j + 1..];
    HostlistOps.TwoRanges(rs[j - 1], rs[j]);
    ExpandThree(rs[..j - 1], [rs[j - 1], rs[j]], rs[j + 1..]);
    ExpandThree(rs[..j - 1], mid, rs[j + 1..]);
  }

  lemma {:induction false} BagThree(a: seq<Host>, b: seq<Host>, b': seq<Host>, c: seq<Host>)
    requires multiset(b) == multiset(b')
    ensures multiset(a + b + c) == multiset(a + b' + c)
  {}

  /** Replacing two neighbours by ranges with the same hosts keeps the hosts of the list. */
  lemma {:induction false} PairKeepsBag(rs: seq<Range>, j: nat, mid: seq<Range>)
    requires 0 < j < |rs|
    requires multiset(Expand(mid)) == multiset(HostsOf(rs[j - 1]) + HostsOf(rs[j]))
    ensures multiset(Expand(rs[..j - 1] + mid + rs[j + 1..])) == multiset(Expand(rs))
  {
    ExpandPair(rs, j, mid);
    BagThree(Expand(rs[..j - 1]), HostsOf(rs[j - 1]) + HostsOf(rs[j]), Expand(mid), Expand(rs[j + 1..]));
  }

  /** Neighbours stored back in either order, perhaps with other widths, keep the hosts of the list. */
  lemma {:induction false} StoreKeepsBag(rs: seq<Range>, j: nat, a: Range, b: Range)
    requires 0 < j < |rs| && SameHosts(rs[j - 1], a) && SameHosts(rs[j], b)
    ensures Expand(rs[j - 1 := a][j := b]) == Expand(rs)
    ensures multiset(Expand(rs[j - 1 := b][j := a])) == multiset(Expand(rs))
  {
    HostlistOps.TwoRanges(a, b);
    HostlistOps.TwoRanges(b, a);
    ExpandPair(rs, j, [a, b]);
    PairKeepsBag(rs, j, [b, a]);
    StorePair(rs, j, a, b);
    StorePair(rs, j, b, a);
  }

  // ---- the library sort ----

  /** The first n hosts are in order, except that host j may still have to move down. */
  ghost predicate AllButOne(fs: seq<Host>, n: nat, j: int)
    requires n <= |fs|
  {
    && (forall p, q :: 0 <= p < q < n && p != j && q != j ==> Below(fs[p], fs[q]))
    && (forall q :: 0 <= j < q < n ==> Below(fs[j], fs[q]))
  }

  /** Once host j is no earlier than its predecessor, everything is in order. */
  lemma {:induction false} InPlace(fs: seq<Host>, n: nat, j: nat)
    requires 0 < j < n <= |fs| && AllButOne(fs, n, j) && Below(fs[j - 1], fs[j])
    ensures AllButOne(fs, n, -1)
  {
    forall p | 0 <= p < j - 1
      ensures Below(fs[p], fs[j])
    {
      CompareTransitive(fs[p], fs[j - 1], fs[j]);
    }
  }

  lemma {:induction false} MovedDown(fs: seq<Host>, n: nat, j: nat)
    requires 0 < j < n <= |fs| && AllButOne(fs, n, j) && Below(fs[j], fs[j - 1])
    ensures AllButOne(fs[j - 1 := fs[j]][j := fs[j - 1]], n, j - 1)
  {}

  lemma {:induction false} StoreKeepsOk(rs: seq<Range>, j: nat, x: Range, y: Range)
    requires AllOk(rs) && AllSmall(rs) && 0 < j < |rs| && x.Ok() && Small(x) && y.Ok() && Small(y)
    ensures AllOk(rs[j - 1 := x][j := y]) && AllSmall(rs[j - 1 := x][j := y])
    ensures Firsts(rs[j - 1 := x][j := y]) == Firsts(rs)[j - 1 := First(x)][j := First(y)]
  {}

  /** The state of the sort: range j of the first n may still have to move down. */
  ghost predicate Sinking(rs: seq<Range>, n: nat, j: int, bag: multiset<Host>) {
    && n <= |rs| && AllOk(rs) && AllSmall(rs)
    && multiset(Expand(rs)) == bag
    && AllButOne(Firsts(rs), n, j)
  }

  lemma {:induction false} ComparedInPlace(rs: seq<Range>, n: nat, j: nat)
    requires AllOk(rs) && AllSmall(rs) && 0 < j < n <= |rs| && AllButOne(Firsts(rs), n, j)
    requires CmpValue(rs[j - 1], rs[j]) <= 0
    ensures AllButOne(Firsts(rs), n, -1)
  {
    ComparatorIsHostOrder(rs[j - 1], rs[j]);
    InPlace(Firsts(rs), n, j);
  }

  lemma {:induction false} ComparedOutOfPlace(rs: seq<Range>, n: nat, j: nat)
    requires AllOk(rs) && AllSmall(rs) && 0 < j < n <= |rs| && AllButOne(Firsts(rs), n, j)
    requires CmpValue(rs[j - 1], rs[j]) > 0
    ensures AllButOne(Firsts(rs)[j - 1 := First(rs[j])][j := First(rs[j - 1])], n, j - 1)
  {
    var fs := Firsts(rs);
    ComparatorIsHostOrder(rs[j - 1], rs[j]);
    CompareAntisymmetric(fs[j - 1], fs[j]);
    MovedDown(fs, n, j);
  }

  /** The compared ranges stored back in order: range j has reached its place. */
  lemma {:induction false} Sunk(rs: seq<Range>, n: nat, j: nat, a: Range, b: Range, bag: multiset<Host>)
    requires Sinking(rs, n, j, bag) && 0 < j < n && SameHosts(rs[j - 1], a) && SameHosts(rs[j], b)
    requires Small(a) && Small(b)
    requires CmpValue(rs[j - 1], rs[j]) <= 0
    ensures Sinking(rs[j - 1 := a][j := b], n, -1, bag)
  {
    ComparedInPlace(rs, n, j);
    StoreKeepsOk(rs, j, a, b);
    assert Firsts(rs)[j - 1 := First(a)][j := First(b)] == Firsts(rs);
    StoreKeepsBag(rs, j, a, b);
  }

  /** The compared ranges exchanged: range j has moved down by one. */
  lemma {:induction false} SunkOne(rs: seq<Range>, n: nat, j: nat, a: Range, b: Range, bag: multiset<Host>)
    requires Sinking(rs, n, j, bag) && 0 < j < n && SameHosts(rs[j - 1], a) && SameHosts(rs[j], b)
    requires Small(a) && Small(b)
    requires CmpValue(rs[j - 1], rs[j]) > 0
    ensures Sinking(rs[j - 1 := b][j := a], n, j - 1, bag)
  {
    ComparedOutOfPlace(rs, n, j);
    StoreKeepsOk(rs, j, b, a);
    StoreKeepsBag(rs, j, a, b);
  }

  lemma {:induction false} AtBottom(rs: seq<Range>, n: nat, bag: multiset<Host>)
    requires Sinking(rs, n, 0, bag)
    ensures Sinking(rs, n, -1, bag)
  {}

  lemma {:induction false} OneMore(rs: seq<Range>, n: nat, bag: multiset<Host>)
    requires Sinking(rs, n, -1, bag) && n < |rs|
    ensures Sinking(rs, n + 1, n, bag)
  {}

  /** One comparison: the ranges are stored back in order, and range j has reached its place or moved down by one. */
  method SinkOne(hl: Hostlist, n: nat, j: nat, ghost bag: multiset<Host>) returns (done: bool)
    requires hl.Valid() && 0 < j < n <= hl.nranges && Sinking(hl.Ranges(), n, j, bag)
    modifies hl.hr
    ensures Sinking(hl.Ranges(), n, if done then -1 else j - 1, bag) && Alike(hl.Ranges(), old(hl.Ranges()))
  {
    ghost var rs := hl.Ranges();
    var c, a, b := Cmp(hl.hr[j - 1], hl.hr[j]);
    done := c <= 0;
    if done {
      Sunk(rs, n, j, a, b, bag);
      StoreAlike(rs, j, a, b);
      hl.StoreTwo(j, a, b);
    } else {
      SunkOne(rs, n, j, a, b, bag);
      SwapAlike(rs, j, a, b);
      hl.StoreTwo(j, b, a);
    }
  }

  /** Moves range n down to its place among the first n. */
  method SinkDown(hl: Hostlist, n: nat, ghost bag: multiset<Host>)
    requires hl.Valid() && n < hl.nranges && Sinking(hl.Ranges(), n, -1, bag)
    modifies hl.hr
    ensures Sinking(hl.Ranges(), n + 1, -1, bag) && Alike(hl.Ranges(), old(hl.Ranges()))
  {
    ghost var was := hl.Ranges();
    OneMore(was, n, bag);
    AlikeItself(was);
    var j, done := n, false;
    while j > 0 && !done
      modifies hl.hr
      invariant 0 <= j <= n && Sinking(hl.Ranges(), n + 1, if done then -1 else j, bag) && Alike(hl.Ranges(), was)
    {
      ghost var rs := hl.Ranges();
      done := SinkOne(hl, n + 1, j, bag);
      AlikeTransitive(hl.Ranges(), rs, was);
      j := j - 1;
    }
    if !done {
      AtBottom(hl.Ranges(), n + 1, bag);
    }
  }

  /**
   * qsort over the comparator, which rewrites widths as it compares.  Only the outcome matters below:
   * some order of the same ranges in which no range compares greater than its successor.
   */
  method QSort(hl: Hostlist)
    requires hl.Valid() && AllOk(hl.Ranges()) && AllSmall(hl.Ranges())
    modifies hl.hr
    ensures AllOk(hl.Ranges()) && AllSmall(hl.Ranges()) && Adjacent(Firsts(hl.Ranges()))
    ensures multiset(Expand(hl.Ranges())) == old(multiset(Expand(hl.Ranges())))
    ensures Alike(hl.Ranges(), old(hl.Ranges()))
  {
    ghost var was := hl.Ranges();
    ghost var bag := multiset(Expand(was));
    AlikeItself(was);
    var n := 0;
    while n < hl.nranges
      modifies hl.hr
      invariant n <= hl.nranges && Sinking(hl.Ranges(), n, -1, bag) && Alike(hl.Ranges(), was)
    {
      ghost var rs := hl.Ranges();
      SinkDown(hl, n, bag);
      AlikeTransitive(hl.Ranges(), rs, was);
      n := n + 1;
    }
  }
}
