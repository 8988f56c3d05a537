/** When the ranges of each prefix share a width; which lists agree without that, and which do not agree. */
module HostlistWidths {
  import opened Decimal
  import opened Hosts
  import opened Hostranges
  import opened HostlistSort
  import opened HostlistCoalesce
  import opened Agreement

  /** Can any two ranges of one prefix be combined? */
  predicate PairwiseCombine(rs: seq<Range>) {
    forall i, j :: 0 <= i < |rs| && 0 <= j < |rs| && !rs[i].single && !rs[j].single && rs[i].prefix == rs[j].prefix ==>
      Combine(rs[i], rs[j]).0
  }

  /** The last of the first n ranges of this prefix whose low end is padded, or -1. */
  function PaddedRange(rs: seq<Range>, n: nat, prefix: string): (k: int)
    requires n <= |rs|
    ensures -1 <= k < n
    ensures k >= 0 ==> !rs[k].single && rs[k].prefix == prefix && rs[k].width > Digits(rs[k].lo)
    ensures forall j :: k < j < n && !rs[j].single && rs[j].prefix == prefix ==> rs[j].width <= Digits(rs[j].lo)
  {
    if n == 0 then -1
    else
      var r := rs[n - 1];
      if !r.single && r.prefix == prefix && r.width > Digits(r.lo) then n - 1 else PaddedRange(rs, n - 1, prefix)
  }

  /** The width all ranges of a prefix can print with. */
  function WidthFor(rs: seq<Range>, prefix: string): nat {
    var k := PaddedRange(rs, |rs|, prefix);
    if k >= 0 then rs[k].width else 0
  }

  lemma {:induction false} WidthForFits(rs: seq<Range>, k: nat)
    requires PairwiseCombine(rs) && k < |rs| && !rs[k].single
    ensures Printed(rs[k].lo, rs[k].width) == Printed(rs[k].lo, WidthFor(rs, rs[k].prefix))
  {
    var i := PaddedRange(rs, |rs|, rs[k].prefix);
    if i >= 0 {
      assert Combine(rs[k], rs[i]).0;
    }
  }

  /** A common width exists for every prefix exactly when any two ranges of a prefix can be combined. */
  lemma {:induction false} CommonWidthIff(rs: seq<Range>)
    requires AllOk(rs)
    ensures (exists W: string -> nat :: Uniform(Expand(rs), W)) <==> PairwiseCombine(rs)
  {
    if PairwiseCombine(rs) {
      var W := (prefix: string) => WidthFor(rs, prefix);
      forall h | h in Expand(rs) && h.Numbered?
        ensures h.len == Printed(h.num, W(h.prefix))
      {
        var k := HostHasRange(rs, |rs|, h);
        var r := rs[k];
        RunMembers(r.prefix, r.width, r.lo, r.hi);
        WidthForFits(rs, k);
        PrintedAgreesUpward(r.lo, h.num, r.width, W(h.prefix));
      }
      assert Uniform(Expand(rs), W);
    }
    if W: string -> nat :| Uniform(Expand(rs), W) {
      forall i, j | 0 <= i < |rs| && 0 <= j < |rs| && !rs[i].single && !rs[j].single && rs[i].prefix == rs[j].prefix
        ensures Combine(rs[i], rs[j]).0
      {
        UniformRange(rs, W, i);
        UniformRange(rs, W, j);
        UniformCombines(rs[i], rs[j], W(rs[i].prefix));
      }
    }
  }

  /** Ranges that share a width per prefix agree, so that sorting and uniq do their work on them. */
  lemma {:induction false} CommonWidthAgrees(rs: seq<Range>, W: string -> nat)
    requires AllOk(rs) && Uniform(Expand(rs), W)
    ensures AllAgree(rs)
  {
    CommonWidthIff(rs);
  }

  /** A common width is not needed: f[1-20] and f[005] have none, and agree. */
  lemma {:induction false} AgreeWithoutCommonWidth()
    ensures var rs := [Range("f", 1, 20, 1, false), Range("f", 5, 5, 3, false)]; AllAgree(rs) && !PairwiseCombine(rs)
  {
    StrCmpAntisymmetric("f", "f");
    var a, b := Range("f", 1, 20, 1, false), Range("f", 5, 5, 3, false);
    assert !Combine(a, b).0 && Compare(Last(a), First(b)) < 0;
    assert [a, b][0] == a && [a, b][1] == b;
  }

  /**
   * How sorting fails on ranges that do not agree: f[1-200], f[3-150], f[005-010] is in comparator order and its last
   * two ranges cannot be combined, yet after the first two are split the comparator finds the last two out of
   * order, which is what the source's assertion before the next intersection forbids.
   */
  lemma {:induction false} MixedWidthsBreakSorting()
    ensures var a, b, c := Range("f", 1, 200, 1, false), Range("f", 3, 150, 1, false), Range("f", 5, 10, 3, false);
            var rs, common := [a, b, c], Range("f", 3, 150, 1, false);
            && AllOk(rs) && AllSmall(rs) && Adjacent(Firsts(rs)) && !Agrees(b, c) && Overlap(a, b, common)
            && var qs := SplitAt(rs, 1, common);
               |qs| >= 2 && qs[|qs| - 1] == c && CmpValue(qs[|qs| - 2], qs[|qs| - 1]) > 0
  {
    var a, b, c := Range("f", 1, 200, 1, false), Range("f", 3, 150, 1, false), Range("f", 5, 10, 3, false);
    MixedWidthsDisagree(b, c);
    MixedWidthsInOrder(a, b, c);
    MixedWidthsSplit(a, b, c, Range("f", 3, 150, 1, false));
  }

  lemma {:induction false} MixedWidthsDisagree(b: Range, c: Range)
    requires b == Range("f", 3, 150, 1, false) && c == Range("f", 5, 10, 3, false)
    ensures !Agrees(b, c)
  {
    StrCmpAntisymmetric("f", "f");
    assert Digits(150) == 3;
  }

  lemma {:induction false} MixedWidthsInOrder(a: Range, b: Range, c: Range)
    requires a.prefix == b.prefix == c.prefix && a.lo == 1 && b.lo == 3 && c.lo == 5
    requires a.width == 1 && b.width == 1 && c.width == 3 && !a.single && !b.single && !c.single
    ensures Adjacent(Firsts([a, b, c]))
  {
    StrCmpAntisymmetric(a.prefix, a.prefix);
  }

  /** The last piece of f[1-200] and f[3-150] is f[150-200], which the comparator puts behind f[005-010]. */
  lemma {:induction false} MixedWidthsSplit(a: Range, b: Range, c: Range, common: Range)
    requires a == Range("f", 1, 200, 1, false) && b == common == Range("f", 3, 150, 1, false)
    requires c == Range("f", 5, 10, 3, false)
    ensures var qs := SplitAt([a, b, c], 1, common);
            |qs| >= 2 && qs[|qs| - 1] == c && CmpValue(qs[|qs| - 2], qs[|qs| - 1]) > 0
  {
    var qs, last := SplitAt([a, b, c], 1, common), Range("f", 150, 200, 1, false);
    assert [a, b, c][2..] == [c];
    assert qs[|qs| - 2] == last;
    assert Digits(150) == 3;
    StrCmpAntisymmetric("f", "f");
    NarrowSmall(145);
  }
}
