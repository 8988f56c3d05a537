/** Splitting overlapping ranges into sorted pieces, and joining neighbours: the second half of sorting. */
module HostlistCoalesce {
  import opened Decimal
  import opened Hosts
  import opened Hostranges
  import opened HostlistSort
  import HostlistOps

  // ---- common widths ----

  /** Under a common width every range prints both its ends at that width. */
  lemma {:induction false} UniformRange(rs: seq<Range>, W: string -> nat, k: nat)
    requires k < |rs| && AllOk(rs) && Uniform(Expand(rs), W)
    ensures !rs[k].single ==> Printed(rs[k].lo, rs[k].width) == Printed(rs[k].lo, W(rs[k].prefix))
    ensures !rs[k].single ==> Printed(rs[k].hi, rs[k].width) == Printed(rs[k].hi, W(rs[k].prefix))
  {
    HostsEnds(rs[k]);
    RangeInList(rs, |rs|, k, First(rs[k]));
    RangeInList(rs, |rs|, k, Last(rs[k]));
  }

  /** Numbers of one prefix printed under one width are ordered by value. */
  lemma {:induction false} NumbersOrdered(prefix: string, w: nat, m: nat, n: nat)
    requires m <= n
    ensures Below(Numbered(prefix, m, Printed(m, w)), Numbered(prefix, n, Printed(n, w)))
  {
    StrCmpAntisymmetric(prefix, prefix);
    DigitsMonotone(m, n);
  }

  // ---- the pieces of an overlap ----

  function One(common: Range, n: ulong): Range { common.(lo := n, hi := n) }

  /** What is inserted for number n of an overlap: one copy at either end, two inside. */
  function Copies(common: Range, n: ulong): seq<Range> {
    (if n > common.lo then [One(common, n)] else []) + (if n < common.hi then [One(common, n)] else [])
  }

  /** The single-host ranges put between the halves for the numbers below k. */
  function Inserted(common: Range, k: nat): (rs: seq<Range>)
    requires common.Ok() && !common.single && common.lo <= k <= common.hi + 1
  {
    if k == common.lo then [] else Inserted(common, k - 1) + Copies(common, k - 1)
  }

  /** Everything that replaces overlapping neighbours a and b. */
  function Pieces(a: Range, b: Range, common: Range): seq<Range>
    requires common.Ok() && !common.single
  {
    [a.(hi := common.lo)] + Inserted(common, common.hi + 1)
    + [b.(lo := common.hi, hi := if common.hi < a.hi then a.hi else b.hi)]
  }

  /** What the intersection of a and b tells the splitting step. */
  ghost predicate Overlap(a: Range, b: Range, common: Range) {
    && a.Ok() && b.Ok() && !a.single && !b.single && a.prefix == b.prefix && a.width == b.width
    && a.lo <= b.lo < a.hi
    && common == a.(lo := b.lo, hi := if b.hi < a.hi then b.hi else a.hi)
  }

  function Inside(n: int, lo: int, hi: int): nat { if lo <= n <= hi then 1 else 0 }

  /** How often host h occurs among the hosts of r's prefix and width numbered lo to hi. */
  ghost function Times(h: Host, r: Range, lo: int, hi: int): nat {
    if h.Numbered? && h.prefix == r.prefix && h.len == Printed(h.num, r.width) then Inside(h.num, lo, hi) else 0
  }

  lemma {:induction false} RunTimes(r: Range, lo: nat, hi: int, h: Host)
    ensures multiset(Run(r.prefix, r.width, lo, hi))[h] == Times(h, r, lo, hi)
    decreases hi - lo + 1
  {
    if lo <= hi {
      RunTimes(r, lo, hi - 1, h);
    }
  }

  lemma {:induction false} CopiesTimes(common: Range, n: ulong, h: Host)
    requires !common.single
    ensures multiset(Expand(Copies(common, n)))[h]
         == (if n > common.lo then Times(h, common, n, n) else 0)
            + (if n < common.hi then Times(h, common, n, n) else 0)
  {
    var one := One(common, n);
    ExpandOne(one);
    HostlistOps.TwoRanges(one, one);
    RunTimes(common, n, n, h);
    if n > common.lo && n < common.hi {
      assert Copies(common, n) == [one, one];
    } else if n > common.lo || n < common.hi {
      assert Copies(common, n) == [one];
    }
  }

  /** Adding number n to the counts of c..n-1 and c+1..n-1. */
  lemma {:induction false} TimesStep(h: Host, r: Range, n: int)
    requires r.lo <= n <= r.hi
    ensures (if n == r.lo then 0 else Times(h, r, r.lo, n - 1) + Times(h, r, r.lo + 1, n - 1))
            + (if n > r.lo then Times(h, r, n, n) else 0) + (if n < r.hi then Times(h, r, n, n) else 0)
         == Times(h, r, r.lo, if n < r.hi then n else r.hi - 1) + Times(h, r, r.lo + 1, n)
  {}

  lemma {:induction false} InsertedTimes(common: Range, k: nat, h: Host)
    requires common.Ok() && !common.single && common.lo < k <= common.hi + 1
    ensures multiset(Expand(Inserted(common, k)))[h]
         == Times(h, common, common.lo, if k - 1 < common.hi then k - 1 else common.hi - 1)
            + Times(h, common, common.lo + 1, k - 1)
  {
    var n := k - 1;
    if n > common.lo {
      InsertedTimes(common, n, h);
    }
    CopiesTimes(common, n, h);
    ExpandConcat(Inserted(common, n), Copies(common, n));
    TimesStep(h, common, n);
  }

  lemma {:induction false} ThreeTimes(a: seq<Host>, b: seq<Host>, c: seq<Host>, h: Host)
    ensures multiset(a + b + c)[h] == multiset(a)[h] + multiset(b)[h] + multiset(c)[h]
  {}

  lemma {:induction false} RangeTimes(r: Range, h: Host)
    requires !r.single
    ensures multiset(HostsOf(r))[h] == Times(h, r, r.lo, r.hi)
  {
    RunTimes(r, r.lo, r.hi, h);
  }

  lemma {:induction false} AroundTimes(x: Range, mid: seq<Range>, y: Range, h: Host)
    requires !x.single && !y.single
    ensures multiset(Expand([x] + mid + [y]))[h]
         == Times(h, x, x.lo, x.hi) + multiset(Expand(mid))[h] + Times(h, y, y.lo, y.hi)
  {
    ExpandThree([x], mid, [y]);
    ExpandOne(x);
    ExpandOne(y);
    ThreeTimes(HostsOf(x), Expand(mid), HostsOf(y), h);
    RangeTimes(x, h);
    RangeTimes(y, h);
  }

  lemma {:induction false} AllInsertedTimes(common: Range, h: Host)
    requires common.Ok() && !common.single
    ensures multiset(Expand(Inserted(common, common.hi + 1)))[h]
         == Times(h, common, common.lo, common.hi - 1) + Times(h, common, common.lo + 1, common.hi)
  {
    InsertedTimes(common, common.hi + 1, h);
  }

  lemma {:induction false} PiecesTimes(x: Range, y: Range, common: Range, h: Host)
    requires !x.single && !y.single && common.Ok() && !common.single
    ensures multiset(Expand([x] + Inserted(common, common.hi + 1) + [y]))[h]
         == Times(h, x, x.lo, x.hi)
            + (Times(h, common, common.lo, common.hi - 1) + Times(h, common, common.lo + 1, common.hi))
            + Times(h, y, y.lo, y.hi)
  {
    AllInsertedTimes(common, h);
    AroundTimes(x, Inserted(common, common.hi + 1), y, h);
  }

  lemma {:induction false} PairTimes(a: Range, b: Range, h: Host)
    requires !a.single && !b.single
    ensures multiset(HostsOf(a) + HostsOf(b))[h] == Times(h, a, a.lo, a.hi) + Times(h, b, b.lo, b.hi)
  {
    RangeTimes(a, h);
    RangeTimes(b, h);
  }

  lemma {:induction false} OverlapArithmetic(a: Range, b: Range, common: Range, h: Host)
    requires Overlap(a, b, common)
    ensures var a', b' := a.(hi := common.lo), b.(lo := common.hi, hi := if common.hi < a.hi then a.hi else b.hi);
              (Times(h, a', a'.lo, a'.hi)
               + (Times(h, common, common.lo, common.hi - 1) + Times(h, common, common.lo + 1, common.hi))
               + Times(h, b', b'.lo, b'.hi)
            == Times(h, a, a.lo, a.hi) + Times(h, b, b.lo, b.hi))
  {}

  /** Splitting an overlap keeps every host, counted with repetitions. */
  lemma {:induction false} PiecesKeepBag(a: Range, b: Range, common: Range)
    requires Overlap(a, b, common)
    ensures multiset(Expand(Pieces(a, b, common))) == multiset(HostsOf(a) + HostsOf(b))
  {
    var a', b' := a.(hi := common.lo), b.(lo := common.hi, hi := if common.hi < a.hi then a.hi else b.hi);
    forall h: Host
      ensures multiset(Expand([a'] + Inserted(common, common.hi + 1) + [b']))[h] == multiset(HostsOf(a) + HostsOf(b))[h]
    {
      PiecesTimes(a', b', common, h);
      PairTimes(a, b, h);
      OverlapArithmetic(a, b, common, h);
    }
  }

  // ---- the pieces are in order ----

  /** Well-formed numbered ranges like r whose low ends rise from x to at most y. */
  ghost predicate Climbs(rs: seq<Range>, r: Range, x: nat, y: nat) {
    && (forall q :: 0 <= q < |rs| ==>
          && rs[q].Ok() && Bounded(rs[q]) && !rs[q].single && rs[q].prefix == r.prefix && rs[q].width == r.width
          && x <= rs[q].lo <= y)
    && (forall q :: 0 < q < |rs| ==> rs[q - 1].lo <= rs[q].lo)
  }

  lemma {:induction false} ClimbConcat(a: seq<Range>, b: seq<Range>, r: Range, x: nat, y: nat, z: nat)
    requires Climbs(a, r, x, y) && Climbs(b, r, y, z) && x <= y <= z
    ensures Climbs(a + b, r, x, z)
  {}

  lemma {:induction false} InsertedClimbs(common: Range, k: nat)
    requires common.Ok() && Bounded(common) && !common.single && common.lo <= k <= common.hi + 1
    ensures Climbs(Inserted(common, k), common, common.lo, if k == common.lo then k else k - 1)
  {
    if k > common.lo {
      var n := k - 1;
      InsertedClimbs(common, n);
      assert Climbs(Copies(common, n), common, n, n);
      assert Climbs(Inserted(common, n), common, common.lo, n);
      ClimbConcat(Inserted(common, n), Copies(common, n), common, common.lo, n, n);
    }
  }

  lemma {:induction false} PiecesClimb(a: Range, b: Range, common: Range)
    requires Overlap(a, b, common) && Bounded(a) && Bounded(b)
    ensures Climbs(Pieces(a, b, common), a, a.lo, common.hi)
  {
    var mid := Inserted(common, common.hi + 1);
    InsertedClimbs(common, common.hi + 1);
    ClimbConcat([a.(hi := common.lo)], mid, a, a.lo, common.lo, common.hi);
    ClimbConcat([a.(hi := common.lo)] + mid, [b.(lo := common.hi, hi := if common.hi < a.hi then a.hi else b.hi)],
                a, a.lo, common.hi, common.hi);
  }

  lemma {:induction false} ClimbAdjacent(rs: seq<Range>, r: Range, x: nat, y: nat)
    requires Climbs(rs, r, x, y)
    ensures Adjacent(Firsts(rs))
  {
    forall k | 0 < k < |rs|
      ensures Below(First(rs[k - 1]), First(rs[k]))
    {
      NumbersOrdered(r.prefix, r.width, rs[k - 1].lo, rs[k].lo);
    }
  }

  lemma {:induction false} AdjacentConcat(a: seq<Range>, b: seq<Range>)
    requires Adjacent(Firsts(a)) && Adjacent(Firsts(b))
    requires a != [] && b != [] ==> Below(First(a[|a| - 1]), First(b[0]))
    ensures Adjacent(Firsts(a + b))
  {
    assert Firsts(a + b) == Firsts(a) + Firsts(b);
  }

  lemma {:induction false} AdjacentSlice(rs: seq<Range>, i: nat)
    requires i <= |rs| && Adjacent(Firsts(rs))
    ensures Adjacent(Firsts(rs[..i])) && Adjacent(Firsts(rs[i..]))
  {
    assert Firsts(rs[..i]) == Firsts(rs)[..i];
    assert Firsts(rs[i..]) == Firsts(rs)[i..];
  }

  /** The list around an overlap, after the split. */
  function SplitAt(rs: seq<Range>, i: nat, common: Range): seq<Range>
    requires 0 < i < |rs| && common.Ok() && !common.single
  {
    rs[..i - 1] + Pieces(rs[i - 1], rs[i], common) + rs[i + 1..]
  }

  lemma {:induction false} SplitKeepsOk(rs: seq<Range>, i: nat, common: Range)
    requires 0 < i < |rs| && Overlap(rs[i - 1], rs[i], common) && AllOk(rs) && AllBounded(rs)
    ensures AllOk(SplitAt(rs, i, common)) && AllBounded(SplitAt(rs, i, common))
  {
    PiecesClimb(rs[i - 1], rs[i], common);
  }

  /** The range after an overlap comes after all its pieces. */
  lemma {:induction false} PiecesBelow(a: Range, b: Range, common: Range, h: Host)
    requires Overlap(a, b, common) && Bounded(a) && Bounded(b) && Below(Last(b), h)
    ensures Below(First(Pieces(a, b, common)[|Pieces(a, b, common)| - 1]), h)
  {
    var mid := Pieces(a, b, common);
    var last := mid[|mid| - 1];
    PiecesClimb(a, b, common);
    NumbersOrdered(b.prefix, b.width, last.lo, b.hi);
    CompareTransitive(First(last), Last(b), h);
  }

  /** Splitting an overlap keeps the ranges well formed and in order of their first hosts. */
  lemma {:induction false} SplitKeepsOrder(rs: seq<Range>, i: nat, common: Range)
    requires 0 < i < |rs| && Overlap(rs[i - 1], rs[i], common)
    requires AllOk(rs) && AllBounded(rs) && Adjacent(Firsts(rs))
    requires i + 1 < |rs| ==> Below(Last(rs[i]), First(rs[i + 1]))
    ensures AllOk(SplitAt(rs, i, common)) && AllBounded(SplitAt(rs, i, common))
    ensures Adjacent(Firsts(SplitAt(rs, i, common)))
  {
    var mid := Pieces(rs[i - 1], rs[i], common);
    SplitKeepsOk(rs, i, common);
    PiecesClimb(rs[i - 1], rs[i], common);
    ClimbAdjacent(mid, rs[i - 1], rs[i - 1].lo, common.hi);
    AdjacentSlice(rs, i - 1);
    AdjacentSlice(rs, i + 1);
    if i > 1 {
      assert Below(Firsts(rs)[i - 2], Firsts(rs)[i - 1]);
    }
    AdjacentConcat(rs[..i - 1], mid);
    if i + 1 < |rs| {
      PiecesBelow(rs[i - 1], rs[i], common, First(rs[i + 1]));
    }
    AdjacentConcat(rs[..i - 1] + mid, rs[i + 1..]);
  }
}
