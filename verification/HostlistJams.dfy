/**
 * What splitting does to ranges that agree, and to ranges that do not: a range that has grown past the start of a
 * padded one behind it stays past it, however often the two are split.
 */
module HostlistJams {
  import opened Decimal
  import opened Hosts
  import opened Agreement
  import opened HostlistSort
  import opened HostlistCoalesce

  // ---- agreeing ranges ----

  lemma {:induction false} InsertedParts(common: Range, k: nat)
    requires common.Ok() && !common.single && common.lo <= k <= common.hi + 1
    ensures Parts(Inserted(common, k), [common])
  {
    if k > common.lo {
      var before, n := Inserted(common, k - 1), k - 1;
      InsertedParts(common, n);
      forall l
        ensures PartAt(Inserted(common, k), l, [common])
      {
        assert PartAt(before, l, [common]);
        assert Part(One(common, n), [common][0]);
      }
    }
  }

  /** Every piece of two overlapping ranges is part of one of them. */
  lemma {:induction false} PiecesParts(a: Range, b: Range, common: Range)
    requires Overlap(a, b, common)
    ensures Parts(Pieces(a, b, common), [a, b])
  {
    var mid := Inserted(common, common.hi + 1);
    var first, last := a.(hi := common.lo), b.(lo := common.hi, hi := if common.hi < a.hi then a.hi else b.hi);
    InsertedParts(common, common.hi + 1);
    forall l
      ensures PartAt(Pieces(a, b, common), l, [a, b])
    {
      assert Part(first, [a, b][0]) && Part(common, [a, b][0]);
      assert Part(last, [a, b][if common.hi < a.hi then 0 else 1]);
      if 0 < l <= |mid| {
        assert PartAt(mid, l - 1, [common]);
        PartTransitive(mid[l - 1], common, a);
      }
    }
  }

  lemma {:induction false} SplitParts(rs: seq<Range>, i: nat, common: Range)
    requires 0 < i < |rs| && AllOk(rs) && Overlap(rs[i - 1], rs[i], common)
    ensures Parts(SplitAt(rs, i, common), rs)
  {
    var pieces, qs := Pieces(rs[i - 1], rs[i], common), SplitAt(rs, i, common);
    PiecesParts(rs[i - 1], rs[i], common);
    AlikeItself(rs);
    forall k
      ensures PartAt(qs, k, rs)
    {
      if k < i - 1 {
        assert PartAt(rs, k, rs);
      } else if k < i - 1 + |pieces| {
        assert PartAt(pieces, k - (i - 1), [rs[i - 1], rs[i]]);
      } else {
        assert PartAt(rs, k - |pieces| + 2, rs);
      }
    }
  }

  // ---- ranges that do not agree ----

  /**
   * a ends behind the start of c, which is padded; and a does not itself begin among numbers padded like that.
   */
  ghost predicate Jams(a: Range, c: Range) {
    && !a.single && !c.single && a.prefix == c.prefix
    && c.width > Digits(c.lo)
    && Compare(Last(a), First(c)) > 0
    && (Printed(a.lo, a.width) != c.width || Digits(a.lo) >= c.width)
  }

  ghost predicate JamAt(rs: seq<Range>, i: int, j: int) { 0 <= i < j < |rs| && Jams(rs[i], rs[j]) }

  ghost predicate Jammed(rs: seq<Range>) { exists i, j :: JamAt(rs, i, j) }

  /** Ranges in order that do not agree are jammed. */
  lemma {:induction false} DisagreeingJams(a: Range, c: Range)
    requires !Agrees(a, c) && Below(First(a), First(c))
    ensures Jams(a, c)
  {
    StrCmpAntisymmetric(a.prefix, a.prefix);
  }

  /** A later piece with the same width keeps the jam. */
  lemma {:induction false} JamLater(a: Range, l: Range, c: Range)
    requires Jams(a, c) && l == a.(lo := l.lo, hi := l.hi) && a.lo <= l.lo && a.hi <= l.hi
    ensures Jams(l, c)
  {
    StrCmpAntisymmetric(a.prefix, a.prefix);
    DigitsMonotone(a.lo, l.lo);
    DigitsMonotone(a.hi, l.hi);
  }

  lemma {:induction false} JamEarlier(a: Range, c: Range, x: Range)
    requires Jams(a, c) && x == c.(lo := x.lo, hi := x.hi) && x.lo <= c.lo
    ensures Jams(a, x)
  {
    StrCmpAntisymmetric(a.prefix, a.prefix);
    DigitsMonotone(x.lo, c.lo);
  }

  /** Ranges that overlap under one width are not jammed with each other. */
  lemma {:induction false} OverlapIsNoJam(a: Range, b: Range, common: Range)
    requires Overlap(a, b, common)
    ensures !Jams(a, b)
  {
    DigitsMonotone(a.lo, b.lo);
  }

  lemma {:induction false} SameHostsJam(a: Range, c: Range, a': Range, c': Range)
    requires Jams(a, c) && SameHosts(a, a') && SameHosts(c, c')
    ensures Jams(a', c')
  {}

  /** Storing neighbours back, perhaps with other widths, keeps a jam. */
  lemma {:induction false} StoreKeepsJam(rs: seq<Range>, i: nat, a: Range, b: Range)
    requires 0 < i < |rs| && Jammed(rs) && SameHosts(rs[i - 1], a) && SameHosts(rs[i], b)
    ensures Jammed(rs[i - 1 := a][i := b])
  {
    var qs := rs[i - 1 := a][i := b];
    var p, q :| JamAt(rs, p, q);
    assert SameHosts(rs[p], qs[p]) && SameHosts(rs[q], qs[q]);
    SameHostsJam(rs[p], rs[q], qs[p], qs[q]);
    assert JamAt(qs, p, q);
  }

  /** Where the range at p is, or the piece that takes its place, after a split at i into n pieces. */
  lemma {:induction false} AfterSplit(rs: seq<Range>, i: nat, common: Range)
    requires 0 < i < |rs| && Overlap(rs[i - 1], rs[i], common)
    ensures var pieces, qs := Pieces(rs[i - 1], rs[i], common), SplitAt(rs, i, common);
            var n := |pieces|;
            && n >= 2 && |qs| == |rs| + n - 2 && qs[i - 1] == pieces[0] && qs[i + n - 2] == pieces[n - 1]
            && (forall k :: 0 <= k < i - 1 ==> qs[k] == rs[k])
            && (forall k :: i < k < |rs| ==> qs[k + n - 2] == rs[k])
  {}

  lemma {:induction false} JamMoves(rs: seq<Range>, i: nat, common: Range, p: nat, q: nat)
    requires 0 < i < |rs| && Overlap(rs[i - 1], rs[i], common) && JamAt(rs, p, q)
    ensures var n := |Pieces(rs[i - 1], rs[i], common)|;
            JamAt(SplitAt(rs, i, common),
                  if p < i - 1 then p else if p <= i then i + n - 2 else p + n - 2,
                  if q < i - 1 then q else if q <= i then i - 1 else q + n - 2)
  {
    AfterSplit(rs, i, common);
    OverlapIsNoJam(rs[i - 1], rs[i], common);
    if i - 1 <= p <= i {
      JamLater(rs[p], LastPiece(rs[i - 1], rs[i], common), rs[q]);
    } else if i - 1 <= q <= i {
      JamEarlier(rs[p], rs[q], rs[i - 1].(hi := common.lo));
    }
  }

  function LastPiece(a: Range, b: Range, common: Range): Range {
    b.(lo := common.hi, hi := if common.hi < a.hi then a.hi else b.hi)
  }

  /** Wherever a split happens, a jam stays. */
  lemma {:induction false} SplitKeepsJam(rs: seq<Range>, i: nat, common: Range)
    requires 0 < i < |rs| && Jammed(rs) && Overlap(rs[i - 1], rs[i], common)
    ensures Jammed(SplitAt(rs, i, common))
  {
    var p, q :| JamAt(rs, p, q);
    JamMoves(rs, i, common, p, q);
  }

  lemma {:induction false} FirstsInOrder(fs: seq<Host>, i: nat, j: nat)
    requires Adjacent(fs) && i < j < |fs|
    ensures Below(fs[i], fs[j])
  {
    if i < j - 1 {
      FirstsInOrder(fs, i, j - 1);
      CompareTransitive(fs[i], fs[j - 1], fs[j]);
    }
  }

  /** Among ranges in order of their first hosts, any disagreement is a jam. */
  lemma {:induction false} DisagreementJams(rs: seq<Range>)
    requires Adjacent(Firsts(rs)) && !AllAgree(rs)
    ensures Jammed(rs)
  {
    var i, j :| 0 <= i < |rs| && 0 <= j < |rs| && !Agrees(rs[i], rs[j]);
    AgreesSymmetric(rs[i], rs[j]);
    var p, q := if i < j then i else j, if i < j then j else i;
    FirstsInOrder(Firsts(rs), p, q);
    DisagreeingJams(rs[p], rs[q]);
    assert JamAt(rs, p, q);
  }

  lemma {:induction false} OrderedAcross(a: seq<Host>, b: seq<Host>, c: seq<Host>, h: Host, k: Host)
    requires Ordered(a + b + c, false) && h in a && k in b
    ensures Below(h, k)
  {
    var i :| 0 <= i < |a| && a[i] == h;
    var j :| 0 <= j < |b| && b[j] == k;
    assert Before((a + b + c)[i], (a + b + c)[|a| + j], false);
  }

  /** In an ordered list each range ends before any later one begins. */
  lemma {:induction false} RangesOrdered(rs: seq<Range>, i: nat, j: nat)
    requires i < j < |rs| && rs[i].Ok() && rs[j].Ok() && Ordered(Expand(rs), false)
    ensures Below(Last(rs[i]), First(rs[j]))
  {
    ExpandSplit(rs, j);
    HostsEnds(rs[i]);
    HostsEnds(rs[j]);
    RangeInList(rs[..j], j, i, Last(rs[i]));
    OrderedAcross(Expand(rs[..j]), HostsOf(rs[j]), Expand(rs[j + 1..]), Last(rs[i]), First(rs[j]));
  }

  /** Jammed ranges do not stand for hosts in order. */
  lemma {:induction false} JammedIsUnordered(rs: seq<Range>)
    requires AllOk(rs) && Jammed(rs)
    ensures !Ordered(Expand(rs), false)
  {
    var i, j :| JamAt(rs, i, j);
    if Ordered(Expand(rs), false) {
      RangesOrdered(rs, i, j);
    }
  }
}
