/** hostlist_sort: qsort, then coalesce (split overlaps, restarting after each), then collapse. */
module HostlistSorting {
  import opened Options
  import opened Decimal
  import opened Seqs
  import opened Hosts
  import opened Hostranges
  import opened Hostlists
  import opened HostlistSort
  import opened HostlistCoalesce
  import opened Agreement
  import opened HostlistJams
  import HostlistOps

  // ---- why restarting after a split terminates ----

  function Size(r: Range): nat { if r.hi > r.lo then r.hi - r.lo else 0 }

  /** Total size of the first n ranges. */
  function SpreadTo(rs: seq<Range>, n: nat): nat
    requires n <= |rs|
  {
    if n == 0 then 0 else SpreadTo(rs, n - 1) + Size(rs[n - 1])
  }

  /** Sizes weighted by position: the earlier a range, the more its size counts. */
  function WeightTo(rs: seq<Range>, n: nat): nat
    requires n <= |rs|
  {
    if n == 0 then 0 else WeightTo(rs, n - 1) + SpreadTo(rs, n)
  }

  lemma {:induction false} SpreadLocal(rs: seq<Range>, qs: seq<Range>, n: nat)
    requires n <= |rs| && n <= |qs| && forall k :: 0 <= k < n ==> Size(rs[k]) == Size(qs[k])
    ensures SpreadTo(rs, n) == SpreadTo(qs, n) && WeightTo(rs, n) == WeightTo(qs, n)
  {
    if n > 0 {
      SpreadLocal(rs, qs, n - 1);
    }
  }

  lemma {:induction false} SpreadConcat(a: seq<Range>, b: seq<Range>)
    ensures SpreadTo(a + b, |a + b|) == SpreadTo(a, |a|) + SpreadTo(b, |b|)
    decreases |b|
  {
    if b == [] {
      SpreadLocal(a + b, a, |a|);
    } else {
      var n := |b| - 1;
      SpreadConcat(a, b[..n]);
      SpreadLocal(a + b, a + b[..n], |a| + n);
      SpreadLocal(b, b[..n], n);
    }
  }

  lemma {:induction false} NoSpread(rs: seq<Range>, n: nat)
    requires n <= |rs| && forall k :: 0 <= k < n ==> Size(rs[k]) == 0
    ensures SpreadTo(rs, n) == 0
  {
    if n > 0 {
      NoSpread(rs, n - 1);
    }
  }

  lemma {:induction false} InsertedSpread(common: Range, k: nat)
    requires common.Ok() && !common.single && common.lo <= k <= common.hi + 1
    ensures SpreadTo(Inserted(common, k), |Inserted(common, k)|) == 0
  {
    if k > common.lo {
      InsertedSpread(common, k - 1);
      SpreadConcat(Inserted(common, k - 1), Copies(common, k - 1));
      NoSpread(Copies(common, k - 1), |Copies(common, k - 1)|);
    }
  }

  /** The total size falls with every split of more than one shared number, and otherwise stays. */
  lemma {:induction false} PiecesSpread(a: Range, b: Range, common: Range)
    requires Overlap(a, b, common)
    ensures SpreadTo(Pieces(a, b, common), |Pieces(a, b, common)|) == Size(a) + Size(b) - 2 * (common.hi - common.lo)
  {
    var mid := Inserted(common, common.hi + 1);
    var x, y := a.(hi := common.lo), b.(lo := common.hi, hi := if common.hi < a.hi then a.hi else b.hi);
    InsertedSpread(common, common.hi + 1);
    SpreadConcat([x], mid);
    SpreadConcat([x] + mid, [y]);
    assert SpreadTo([x], 1) == Size(x) && SpreadTo([y], 1) == Size(y);
  }

  /** When a single number is shared, size moves from the earlier neighbour to the later one. */
  lemma {:induction false} WeightFalls(rs: seq<Range>, qs: seq<Range>, i: nat, n: nat)
    requires 0 < i < |rs| == |qs| && n <= |rs|
    requires forall k :: 0 <= k < |rs| && k != i - 1 && k != i ==> Size(rs[k]) == Size(qs[k])
    requires Size(qs[i - 1]) < Size(rs[i - 1]) && Size(qs[i - 1]) + Size(qs[i]) == Size(rs[i - 1]) + Size(rs[i])
    ensures n < i ==> WeightTo(qs, n) == WeightTo(rs, n)
    ensures n >= i ==> WeightTo(qs, n) < WeightTo(rs, n)
    ensures SpreadTo(rs, n) - SpreadTo(qs, n) == if n == i then Size(rs[i - 1]) - Size(qs[i - 1]) else 0
  {
    if n > 0 {
      WeightFalls(rs, qs, i, n - 1);
    }
  }

  /** Every split lowers the pair (total size, weighted size). */
  lemma {:induction false} SplitProgress(rs: seq<Range>, i: nat, common: Range)
    requires 0 < i < |rs| && Overlap(rs[i - 1], rs[i], common)
    ensures var qs := SplitAt(rs, i, common);
            || SpreadTo(qs, |qs|) < SpreadTo(rs, |rs|)
            || (SpreadTo(qs, |qs|) == SpreadTo(rs, |rs|) && WeightTo(qs, |qs|) < WeightTo(rs, |rs|))
  {
    var a, b := rs[i - 1], rs[i];
    var mid, qs := Pieces(a, b, common), SplitAt(rs, i, common);
    assert rs == rs[..i - 1] + [a, b] + rs[i + 1..];
    PiecesSpread(a, b, common);
    SpreadConcat(rs[..i - 1], mid);
    SpreadConcat(rs[..i - 1] + mid, rs[i + 1..]);
    SpreadConcat(rs[..i - 1], [a, b]);
    SpreadConcat(rs[..i - 1] + [a, b], rs[i + 1..]);
    assert SpreadTo([a, b], 2) == SpreadTo([a, b], 1) + Size(b);
    if common.lo == common.hi {
      assert Inserted(common, common.hi + 1) == [];
      assert mid == [mid[0], mid[1]];
      WeightFalls(rs, qs, i, |rs|);
    }
  }

  // ---- the loops ----

  /** Ranges that agree and do not intersect are apart, except perhaps for one shared number. */
  lemma {:induction false} NoOverlap(a: Range, b: Range)
    requires a.Ok() && b.Ok() && Below(First(a), First(b)) && Agrees(a, b) && !Shares(a, b)
    ensures Below(Last(a), First(b))
  {
    StrCmpAntisymmetric(a.prefix, b.prefix);
    if a.prefix == b.prefix && !a.single && !b.single {
      if Combine(a, b).0 {
        var w := Combine(a, b).1.width;
        PrintedAgreesUpward(a.lo, a.hi, a.width, w);
        NumbersOrdered(a.prefix, w, a.hi, b.lo);
      } else {
        AgreeInOrder(a, b);
      }
    }
  }

  lemma {:induction false} AddAtEnd(done: seq<Range>, x: Range, after: seq<Range>)
    ensures (done + after)[..|done|] + [x] + (done + after)[|done|..] == done + [x] + after
  {}

  /** One round of the insertion loop: range {n} once if above prevHi and once if below nextLo, from slot j on. */
  method InsertCopies(hl: Hostlist, j: nat, common: Range, n: ulong, ghost done: seq<Range>, ghost after: seq<Range>)
    returns (j': nat)
    requires hl.Valid() && !common.single && hl.Ranges() == done + after && j == |done|
    modifies hl`hr, hl`nranges, hl.hr
    ensures hl.Valid() && (hl.hr == old(hl.hr) || fresh(hl.hr))
    ensures hl.Ranges() == done + Copies(common, n) + after && j' == |done + Copies(common, n)|
  {
    var one := Range(common.prefix, n, n, common.width, false);
    j' := j;
    ghost var left := [];
    assert done + left == done;
    if n > common.lo {
      AddAtEnd(done, one, after);
      hl.InsertRange(one, j');
      left := [one];
      j' := j' + 1;
    }
    if n < common.hi {
      AddAtEnd(done + left, one, after);
      hl.InsertRange(one, j');
      j' := j' + 1;
      Assoc(done, left, [one]);
    }
  }

  /** Replaces the overlapping ranges i - 1 and i by their pieces. */
  method Split(hl: Hostlist, i: nat, common: Range)
    requires hl.Valid() && 0 < i < hl.nranges && Overlap(hl.hr[i - 1], hl.hr[i], common)
    modifies hl`hr, hl`nranges, hl.hr
    ensures hl.Valid() && (hl.hr == old(hl.hr) || fresh(hl.hr))
    ensures hl.Ranges() == SplitAt(old(hl.Ranges()), i, common)
  {
    ghost var rs := hl.Ranges();
    var hprev, hnext := hl.hr[i - 1], hl.hr[i];
    if common.hi < hprev.hi {
      hnext := hnext.(hi := hprev.hi);
    }
    hprev := hprev.(hi := common.lo);
    hnext := hnext.(lo := common.hi);
    assert !Empty(hprev);
    hl.hr[i - 1], hl.hr[i] := hprev, hnext;
    ghost var before, after := rs[..i - 1] + [hprev], [hnext] + rs[i + 1..];
    InsertAll(hl, i, common, before, after);
    RegroupPieces(rs[..i - 1], hprev, Inserted(common, common.hi + 1), hnext, rs[i + 1..]);
  }

  lemma {:induction false} RegroupPieces(a: seq<Range>, x: Range, mid: seq<Range>, y: Range, c: seq<Range>)
    ensures (a + [x]) + mid + ([y] + c) == a + ([x] + mid + [y]) + c
  {}

  /** The insertion loop, over all shared numbers. */
  method InsertAll(hl: Hostlist, i: nat, common: Range, ghost before: seq<Range>, ghost after: seq<Range>)
    requires hl.Valid() && common.Ok() && !common.single && hl.Ranges() == before + after && i == |before|
    modifies hl`hr, hl`nranges, hl.hr
    ensures hl.Valid() && (hl.hr == old(hl.hr) || fresh(hl.hr))
    ensures hl.Ranges() == before + Inserted(common, common.hi + 1) + after
  {
    var j, n := i, common.lo;
    assert before + Inserted(common, n) == before;
    while n <= common.hi
      modifies hl`hr, hl`nranges, hl.hr
      invariant common.lo <= n <= common.hi + 1
      invariant hl.Valid() && (hl.hr == old(hl.hr) || fresh(hl.hr))
      invariant hl.Ranges() == before + Inserted(common, n) + after && j == |before + Inserted(common, n)|
    {
      j := InsertCopies(hl, j, common, n, before + Inserted(common, n), after);
      Assoc(before, Inserted(common, n), Copies(common, n));
      n := n + 1;
    }
  }

  /** From range i on, each range ends no later than its successor begins. */
  ghost predicate Settled(rs: seq<Range>, i: int) {
    forall k :: i < k < |rs| && 0 < k ==> Below(Last(rs[k - 1]), First(rs[k]))
  }

  /** Well-formed ranges with the hosts hs. */
  ghost predicate Holding(rs: seq<Range>, hs: seq<Host>) {
    AllOk(rs) && AllBounded(rs) && multiset(Expand(rs)) == multiset(hs)
  }

  /** Ranges that agree stay in order, and are settled from i on; ranges that do not agree stay jammed. */
  ghost predicate Scanned(rs: seq<Range>, agree: bool, i: int) {
    if agree then Adjacent(Firsts(rs)) && AllAgree(rs) && Settled(rs, i) else Jammed(rs)
  }

  /** Storing back the two ranges that were compared keeps the hosts. */
  lemma {:induction false} ComparedHolding(rs: seq<Range>, hs: seq<Host>, i: nat, a: Range, b: Range)
    requires 0 < i < |rs| && Holding(rs, hs)
    requires SameHosts(rs[i - 1], a) && SameHosts(rs[i], b) && Bounded(a) && Bounded(b)
    ensures Holding(rs[i - 1 := a][i := b], hs)
  {
    BoundedIsSmall(rs);
    StoreKeepsOk(rs, i, a, b);
    StoreKeepsBag(rs, i, a, b);
    StoreKeepsBounded(rs, i, a, b);
  }

  lemma {:induction false} StoreKeepsBounded(rs: seq<Range>, i: nat, a: Range, b: Range)
    requires 0 < i < |rs| && AllBounded(rs) && Bounded(a) && Bounded(b)
    ensures AllBounded(rs[i - 1 := a][i := b])
  {}

  lemma {:induction false} ComparedAgreeing(rs: seq<Range>, i: nat, a: Range, b: Range)
    requires 0 < i < |rs| && AllOk(rs) && SameHosts(rs[i - 1], a) && SameHosts(rs[i], b)
    ensures AllAgree(rs) ==> AllAgree(rs[i - 1 := a][i := b])
    ensures Firsts(rs[i - 1 := a][i := b]) == Firsts(rs)
  {
    StoreAlike(rs, i, a, b);
    AlikeAgree(rs[i - 1 := a][i := b], rs);
  }

  lemma {:induction false} ComparedSettled(rs: seq<Range>, i: nat, a: Range, b: Range)
    requires 0 < i < |rs| && SameHosts(rs[i - 1], a) && SameHosts(rs[i], b)
    ensures Settled(rs, i) ==> Settled(rs[i - 1 := a][i := b], i)
  {}

  /** The comparison keeps the state of the scan, and the sizes. */
  lemma {:induction false} ComparedScanned(rs: seq<Range>, agree: bool, i: nat, a: Range, b: Range)
    requires 0 < i < |rs| && AllOk(rs) && Scanned(rs, agree, i) && SameHosts(rs[i - 1], a) && SameHosts(rs[i], b)
    ensures Scanned(rs[i - 1 := a][i := b], agree, i)
    ensures var qs := rs[i - 1 := a][i := b];
            SpreadTo(qs, |qs|) == SpreadTo(rs, |rs|) && WeightTo(qs, |qs|) == WeightTo(rs, |rs|)
  {
    SpreadLocal(rs, rs[i - 1 := a][i := b], |rs|);
    if agree {
      ComparedAgreeing(rs, i, a, b);
      ComparedSettled(rs, i, a, b);
    } else {
      StoreKeepsJam(rs, i, a, b);
    }
  }

  /** If the pair does not intersect, one more pair is settled. */
  lemma {:induction false} PassScanned(rs: seq<Range>, agree: bool, i: nat)
    requires 0 < i < |rs| && AllOk(rs) && Scanned(rs, agree, i) && !Shares(rs[i - 1], rs[i])
    ensures Scanned(rs, agree, i - 1)
  {
    if agree {
      assert Below(Firsts(rs)[i - 1], Firsts(rs)[i]);
      NoOverlap(rs[i - 1], rs[i]);
    }
  }

  /** A split keeps the hosts. */
  lemma {:induction false} SplitHolding(rs: seq<Range>, hs: seq<Host>, i: nat, common: Range)
    requires 0 < i < |rs| && Holding(rs, hs) && Overlap(rs[i - 1], rs[i], common)
    ensures Holding(SplitAt(rs, i, common), hs)
  {
    SplitKeepsOk(rs, i, common);
    PiecesKeepBag(rs[i - 1], rs[i], common);
    PairKeepsBag(rs, i, Pieces(rs[i - 1], rs[i], common));
  }

  /** A split keeps the state of the scan, which starts over. */
  lemma {:induction false} SplitScanned(rs: seq<Range>, agree: bool, i: nat, common: Range)
    requires 0 < i < |rs| && AllOk(rs) && AllBounded(rs) && Scanned(rs, agree, i) && Overlap(rs[i - 1], rs[i], common)
    ensures var qs := SplitAt(rs, i, common); Scanned(qs, agree, |qs| - 1)
  {
    if agree {
      SplitKeepsOrder(rs, i, common);
      SplitParts(rs, i, common);
      PartsAgree(SplitAt(rs, i, common), rs);
    } else {
      SplitKeepsJam(rs, i, common);
    }
  }

  /** The measure that ends the restarts: total size, then weighted size. */
  ghost predicate Lighter(qs: seq<Range>, rs: seq<Range>) {
    || SpreadTo(qs, |qs|) < SpreadTo(rs, |rs|)
    || (SpreadTo(qs, |qs|) == SpreadTo(rs, |rs|) && WeightTo(qs, |qs|) < WeightTo(rs, |rs|))
  }

  ghost predicate AsHeavy(qs: seq<Range>, rs: seq<Range>) {
    |qs| == |rs| && SpreadTo(qs, |qs|) == SpreadTo(rs, |rs|) && WeightTo(qs, |qs|) == WeightTo(rs, |rs|)
  }

  /** The intersection, as the splitting step needs it. */
  method IntersectPair(a: Range, b: Range) returns (ok: bool, common: Option<Range>, a': Range, b': Range)
    requires a.Ok() && b.Ok() && Bounded(a) && Bounded(b)
    ensures SameHosts(a, a') && SameHosts(b, b') && Bounded(a') && Bounded(b')
    ensures Below(First(a), First(b)) ==> ok
    ensures ok && common == None ==> !Shares(a', b')
    ensures common.Some? ==> ok && Overlap(a', b', common.value)
  {
    ok, common, a', b' := Intersect(a, b);
  }

  /** Compares the neighbours i - 1 and i, which may rewrite their widths. */
  method ComparePair(hl: Hostlist, i: nat, ghost hs: seq<Host>, ghost agree: bool)
    returns (ok: bool, common: Option<Range>)
    requires hl.Valid() && 0 < i < hl.nranges && Holding(hl.Ranges(), hs) && Scanned(hl.Ranges(), agree, i)
    modifies hl.hr
    ensures Holding(hl.Ranges(), hs) && Scanned(hl.Ranges(), agree, i) && AsHeavy(hl.Ranges(), old(hl.Ranges()))
    ensures agree ==> ok
    ensures ok && common == None ==> !Shares(hl.Ranges()[i - 1], hl.Ranges()[i])
    ensures common.Some? ==> ok && Overlap(hl.Ranges()[i - 1], hl.Ranges()[i], common.value)
  {
    ghost var rs := hl.Ranges();
    var a, b;
    ok, common, a, b := IntersectPair(hl.hr[i - 1], hl.hr[i]);
    PairOrdered(rs, agree, i);
    ComparedHolding(rs, hs, i, a, b);
    ComparedScanned(rs, agree, i, a, b);
    hl.StoreTwo(i, a, b);
  }

  /** Looks at the neighbours i - 1 and i: splits them, finds one more pair settled, or finds them out of order. */
  method CoalescePair(hl: Hostlist, i: nat, ghost hs: seq<Host>, ghost agree: bool) returns (ok: bool, split: bool)
    requires hl.Valid() && 0 < i < hl.nranges && Holding(hl.Ranges(), hs) && Scanned(hl.Ranges(), agree, i)
    modifies hl`hr, hl`nranges, hl.hr
    ensures hl.Valid() && (hl.hr == old(hl.hr) || fresh(hl.hr)) && i <= hl.nranges
    ensures Holding(hl.Ranges(), hs) && (agree ==> ok)
    ensures ok ==> Scanned(hl.Ranges(), agree, if split then hl.nranges - 1 else i - 1)
    ensures ok ==> if split then Lighter(hl.Ranges(), old(hl.Ranges())) else AsHeavy(hl.Ranges(), old(hl.Ranges()))
  {
    var common;
    ok, common := ComparePair(hl, i, hs, agree);
    split := common.Some?;
    if split {
      SplitPair(hl, i, common.value, hs, agree);
    } else if ok {
      PassScanned(hl.Ranges(), agree, i);
    }
  }

  lemma {:induction false} PairOrdered(rs: seq<Range>, agree: bool, i: nat)
    requires 0 < i < |rs| && Scanned(rs, agree, i)
    ensures agree ==> Below(First(rs[i - 1]), First(rs[i]))
  {
    if agree {
      assert Below(Firsts(rs)[i - 1], Firsts(rs)[i]);
    }
  }

  /** The split of a pair, with what it does to the state of the scan. */
  method SplitPair(hl: Hostlist, i: nat, common: Range, ghost hs: seq<Host>, ghost agree: bool)
    requires hl.Valid() && 0 < i < hl.nranges && Overlap(hl.Ranges()[i - 1], hl.Ranges()[i], common)
    requires Holding(hl.Ranges(), hs) && Scanned(hl.Ranges(), agree, i)
    modifies hl`hr, hl`nranges, hl.hr
    ensures hl.Valid() && (hl.hr == old(hl.hr) || fresh(hl.hr)) && i <= hl.nranges
    ensures Holding(hl.Ranges(), hs) && Scanned(hl.Ranges(), agree, hl.nranges - 1)
    ensures Lighter(hl.Ranges(), old(hl.Ranges()))
  {
    ghost var rs := hl.Ranges();
    SplitHolding(rs, hs, i, common);
    SplitScanned(rs, agree, i, common);
    SplitProgress(rs, i, common);
    Split(hl, i, common);
  }

  /**
   * Splits every overlap.  When the ranges agree, the source's assertion in the intersection never fails and the list
   * comes out in order; when they do not, it fails, or the list comes out in disorder.  Every host survives as often
   * as it occurred.  The loop starts over after each split; it ends because total size, then weighted size, then i
   * goes down.
   */
  method SplitOverlaps(hl: Hostlist) returns (ok: bool)
    requires hl.Valid() && AllOk(hl.Ranges()) && AllBounded(hl.Ranges()) && Adjacent(Firsts(hl.Ranges()))
    modifies hl`hr, hl`nranges, hl.hr
    ensures hl.Valid() && (hl.hr == old(hl.hr) || fresh(hl.hr))
    ensures Holding(hl.Ranges(), old(hl.Contents()))
    ensures ok && Ordered(hl.Contents(), false) <==> AllAgree(old(hl.Ranges()))
  {
    ghost var hs, agree := hl.Contents(), AllAgree(hl.Ranges());
    if !agree {
      DisagreementJams(hl.Ranges());
    }
    var i := hl.nranges - 1;
    ok := true;
    while i > 0 && ok
      modifies hl`hr, hl`nranges, hl.hr
      invariant hl.Valid() && (hl.hr == old(hl.hr) || fresh(hl.hr))
      invariant -1 <= i < hl.nranges && Holding(hl.Ranges(), hs) && (agree ==> ok)
      invariant ok ==> Scanned(hl.Ranges(), agree, i)
      decreases ok, SpreadTo(hl.Ranges(), hl.nranges), WeightTo(hl.Ranges(), hl.nranges), i
    {
      var split;
      ok, split := CoalescePair(hl, i, hs, agree);
      i := if split then hl.nranges - 1 else i - 1;
    }
    Outcome(hl.Ranges(), agree, i, ok);
  }

  lemma {:induction false} Outcome(rs: seq<Range>, agree: bool, i: int, ok: bool)
    requires AllOk(rs) && (agree ==> ok) && (ok ==> i <= 0 && Scanned(rs, agree, i))
    ensures ok && Ordered(Expand(rs), false) <==> agree
  {
    if agree {
      ChainOrdered(rs, |rs|, false);
    } else if ok {
      JammedIsUnordered(rs);
    }
  }

  /** Joining neighbours i - 1 and i where one continues the other keeps the expansion. */
  lemma {:induction false} JoinNeighbours(rs: seq<Range>, i: nat)
    requires AllOk(rs) && 0 < i < |rs| && HostlistOps.Continues(rs[i - 1], rs[i])
    ensures var a := Combine(rs[i - 1], rs[i]).1.(hi := rs[i].hi);
            var qs := rs[..i - 1] + [a] + rs[i + 1..];
            AllOk(qs) && Expand(qs) == Expand(rs)
  {
    var a := Combine(rs[i - 1], rs[i]).1.(hi := rs[i].hi);
    HostlistOps.JoinedRun(rs[i - 1], rs[i]);
    ExpandPair(rs, i, [a]);
    ExpandOne(a);
  }

  /** A range stretched downward leaves the same gap behind it. */
  lemma {:induction false} GapStays(r: Range, a: Range, c: Range)
    requires Gap(r, c) && Part(r, a) && a.hi == r.hi
    ensures Gap(a, c)
  {
    if !r.single && !c.single && Combine(a, c).0 {
      PartCombines(r, a, c);
    }
  }

  lemma {:induction false} JoinKeepsGaps(rs: seq<Range>, i: nat, a: Range)
    requires 0 < i < |rs| && Gaps(rs, i) && Part(rs[i], a) && a.hi == rs[i].hi
    ensures Gaps(rs[..i - 1] + [a] + rs[i + 1..], i - 1)
  {
    var qs := rs[..i - 1] + [a] + rs[i + 1..];
    forall k | i - 1 < k < |qs|
      ensures Gap(qs[k - 1], qs[k])
    {
      assert Gap(rs[k], rs[k + 1]);
      assert qs[k] == rs[k + 1] && (k > i ==> qs[k - 1] == rs[k]);
      if k == i {
        GapStays(rs[i], a, rs[i + 1]);
      }
    }
  }

  /** The range joined from two neighbours holds the second as a part. */
  lemma {:induction false} JoinedPart(a: Range, b: Range)
    requires a.Ok() && b.Ok() && HostlistOps.Continues(a, b)
    ensures Part(b, Combine(a, b).1.(hi := b.hi))
  {
    SamePrefix(a, b);
    CombineKeepsHosts(a, b);
  }

  /** Neighbours that are not joined could not be one range. */
  lemma {:induction false} NotJoined(a: Range, b: Range)
    requires a.Ok() && b.Ok() && !HostlistOps.Continues(a, b)
    ensures Gap(a, b)
  {
    SamePrefix(a, b);
  }

  lemma {:induction false} ContinuesIsNoGap(a: Range, b: Range)
    requires a.Ok() && b.Ok() && HostlistOps.Continues(a, b)
    ensures !Gap(a, b)
  {
    SamePrefix(a, b);
  }

  /** The ranges when the neighbours i - 1 and i have become one, if they could. */
  ghost function Collapsed(rs: seq<Range>, i: nat): seq<Range>
    requires 0 < i < |rs|
  {
    if Gap(rs[i - 1], rs[i]) then rs
    else rs[..i - 1] + [Combine(rs[i - 1], rs[i]).1.(hi := rs[i].hi)] + rs[i + 1..]
  }

  /** Joins ranges i - 1 and i when the numbers run on. */
  method CollapsePair(hl: Hostlist, i: nat)
    requires hl.Valid() && 0 < i < hl.nranges && AllOk(hl.Ranges()) && Gaps(hl.Ranges(), i)
    modifies hl`nranges, hl.hr
    ensures hl.Valid() && i <= hl.nranges
    ensures AllOk(hl.Ranges()) && hl.Contents() == old(hl.Contents()) && Gaps(hl.Ranges(), i - 1)
    ensures hl.Ranges() == Collapsed(old(hl.Ranges()), i)
  {
    ghost var rs := hl.Ranges();
    var hprev, hnext := hl.hr[i - 1], hl.hr[i];
    if PrefixCmp(hprev, hnext) == 0 && hprev.hi == Pred(hnext.lo) {
      var ok, w, w' := CompareWidths(hprev.lo, hprev.width, hnext.lo, hnext.width);
      if ok {
        var joined := hprev.(width := w, hi := hnext.hi);
        ContinuesIsNoGap(rs[i - 1], rs[i]);
        JoinNeighbours(rs, i);
        JoinedPart(rs[i - 1], rs[i]);
        JoinKeepsGaps(rs, i, joined);
        Replace(hl, i, joined);
        return;
      }
    }
    NotJoined(rs[i - 1], rs[i]);
  }

  /** Puts one range in the place of the neighbours i - 1 and i. */
  method Replace(hl: Hostlist, i: nat, joined: Range)
    requires hl.Valid() && 0 < i < hl.nranges
    modifies hl`nranges, hl.hr
    ensures hl.Valid() && hl.Ranges() == old(hl.Ranges()[..i - 1] + [joined] + hl.Ranges()[i + 1..])
  {
    hl.Store(i - 1, joined);
    hl.DeleteRange(i);
  }

  /** Joins neighbours whose numbers run on; the expansion stays exactly as it was. */
  method Collapse(hl: Hostlist)
    requires hl.Valid() && AllOk(hl.Ranges())
    modifies hl`nranges, hl.hr
    ensures hl.Valid() && AllOk(hl.Ranges()) && hl.Contents() == old(hl.Contents())
    ensures Gaps(hl.Ranges(), 0)
  {
    var i := hl.nranges - 1;
    while i > 0
      modifies hl`nranges, hl.hr
      invariant hl.Valid() && -1 <= i < hl.nranges
      invariant AllOk(hl.Ranges()) && hl.Contents() == old(hl.Contents()) && Gaps(hl.Ranges(), i)
    {
      CollapsePair(hl, i);
      i := i - 1;
    }
  }

  /** hostlist_coalesce: splits every overlap, then joins what runs on. */
  method Coalesce(hl: Hostlist) returns (ok: bool)
    requires hl.Valid() && AllOk(hl.Ranges()) && AllBounded(hl.Ranges()) && Adjacent(Firsts(hl.Ranges()))
    modifies hl`hr, hl`nranges, hl.hr
    ensures hl.Valid() && AllOk(hl.Ranges()) && multiset(hl.Contents()) == multiset(old(hl.Contents()))
    ensures ok && Ordered(hl.Contents(), false) <==> AllAgree(old(hl.Ranges()))
    ensures ok ==> Gaps(hl.Ranges(), 0)
  {
    ok := SplitOverlaps(hl);
    if ok {
      Collapse(hl);
    }
  }

  /**
   * hostlist_sort, with suffixes an int can hold.  Exactly when the ranges agree, every assertion holds and the list
   * afterwards stands for its hosts in ascending order.  Whenever every assertion holds, the hosts are a permutation
   * of what they were, repetitions kept, with the count unchanged and no two neighbours left that could be one range.
   */
  method Sort(hl: Hostlist) returns (ok: bool)
    requires hl.Sound() && AllBounded(hl.Ranges())
    modifies hl, hl.hr
    ensures hl.Sound() && hl.nhosts == old(hl.nhosts) && multiset(hl.Contents()) == multiset(old(hl.Contents()))
    ensures ok && Ascending(hl.Contents(), false) <==> AllAgree(old(hl.Ranges()))
    ensures ok ==> Gaps(hl.Ranges(), 0)
  {
    ghost var rs, hs := hl.Ranges(), hl.Contents();
    ok := true;
    if hl.nranges <= 1 {
      ChainOrdered(rs, |rs|, false);
      OneAgrees(rs);
      OrderedIsAscending(hl.Contents(), false);
      return;
    }
    BoundedIsSmall(rs);
    QSort(hl);
    AlikeAgree(hl.Ranges(), rs);
    AlikeBounded(hl.Ranges(), rs);
    ok := Coalesce(hl);
    BagLength(hs, hl.Contents());
    OrderedIsAscending(hl.Contents(), false);
  }

  /** Reordering ranges and rewriting widths lets no upper end grow. */
  lemma {:induction false} AlikeBounded(qs: seq<Range>, rs: seq<Range>)
    requires Alike(qs, rs) && AllBounded(rs) && AllOk(qs) && AllSmall(qs)
    ensures AllBounded(qs)
  {
    forall k | 0 <= k < |qs|
      ensures Bounded(qs[k])
    {
      assert PartAt(qs, k, rs);
    }
  }

  lemma {:induction false} OneAgrees(rs: seq<Range>)
    requires |rs| <= 1
    ensures AllAgree(rs)
  {}

  lemma {:induction false} BagLength(a: seq<Host>, b: seq<Host>)
    requires multiset(a) == multiset(b)
    ensures |a| == |b|
  {
    assert |multiset(a)| == |a| && |multiset(b)| == |b|;
  }
}
