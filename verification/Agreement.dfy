/** Which ranges can be sorted together: those of one prefix either share a width or keep out of each other's way. */
module Agreement {
  import opened Decimal
  import opened Hosts

  /** Two numbered ranges of one prefix can be combined, or one has ended in host order before the other begins. */
  predicate Agrees(a: Range, b: Range) {
    || a.prefix != b.prefix || a.single || b.single
    || Combine(a, b).0 || Compare(Last(a), First(b)) <= 0 || Compare(Last(b), First(a)) <= 0
  }

  predicate AllAgree(rs: seq<Range>) {
    forall i, j :: 0 <= i < |rs| && 0 <= j < |rs| ==> Agrees(rs[i], rs[j])
  }

  /** r, printed with w, gives its own names. */
  predicate PrintsWith(r: Range, w: nat) { Printed(r.lo, w) == Printed(r.lo, r.width) }

  /** Two ranges can be combined exactly when some width gives the names of both. */
  lemma {:induction false} CombineReads(a: Range, b: Range)
    requires !a.single && !b.single
    ensures Combine(a, b).0 <==> exists w :: PrintsWith(a, w) && PrintsWith(b, w)
  {
    if Combine(a, b).0 {
      var w := Combine(a, b).1.width;
      assert PrintsWith(a, w) && PrintsWith(b, w);
    }
    if w :| PrintsWith(a, w) && PrintsWith(b, w) {
      UniformCombines(a, b, w);
    }
  }

  /** The last name of a is shorter than the first of b, or as long and its number no greater. */
  predicate EndsBefore(a: Range, b: Range) {
    var m, n := Printed(a.hi, a.width), Printed(b.lo, b.width);
    m < n || (m == n && a.hi <= b.lo)
  }

  /** Agreement of two numbered ranges of one prefix, in terms of widths and numbers. */
  lemma {:induction false} AgreesReads(a: Range, b: Range)
    requires a.prefix == b.prefix && !a.single && !b.single
    ensures Agrees(a, b) <==>
              (exists w :: PrintsWith(a, w) && PrintsWith(b, w)) || EndsBefore(a, b) || EndsBefore(b, a)
  {
    CombineReads(a, b);
    StrCmpAntisymmetric(a.prefix, a.prefix);
  }

  lemma {:induction false} AgreesSymmetric(a: Range, b: Range)
    ensures Agrees(a, b) <==> Agrees(b, a)
  {}

  /** Ranges in order that agree but cannot be combined are apart. */
  lemma {:induction false} AgreeInOrder(a: Range, b: Range)
    requires b.Ok() && Below(First(a), First(b)) && Agrees(a, b) && a.prefix == b.prefix && !a.single && !b.single
    requires !Combine(a, b).0
    ensures Compare(Last(a), First(b)) < 0
  {
    StrCmpAntisymmetric(a.prefix, a.prefix);
    DigitsMonotone(b.lo, b.hi);
  }

  /** Whether ranges can be combined depends on their first hosts only. */
  lemma {:induction false} SameFirstCombines(a: Range, a': Range, c: Range)
    requires !a.single && !c.single && First(a) == First(a') && Combine(a, c).0
    ensures Combine(a', c).0 && Combine(c, a').0
  {
    UniformCombines(a', c, Combine(a, c).1.width);
    UniformCombines(c, a', Combine(a, c).1.width);
  }

  /** In order, what can be combined with its neighbour can be combined with its neighbour's neighbour. */
  lemma {:induction false} CombineChain(a: Range, b: Range, c: Range)
    requires !a.single && !b.single && !c.single && a.prefix == b.prefix == c.prefix
    requires Below(First(a), First(b)) && Below(First(b), First(c)) && Combine(a, b).0 && Combine(b, c).0
    ensures Combine(a, c).0
  {
    StrCmpAntisymmetric(a.prefix, a.prefix);
    if b.lo <= c.lo {
      DigitsMonotone(b.lo, c.lo);
    } else {
      DigitsMonotone(c.lo, b.lo);
    }
    if a.lo <= b.lo {
      DigitsMonotone(a.lo, b.lo);
    } else {
      DigitsMonotone(b.lo, a.lo);
    }
  }

  /** Out of order the chain can break: f[1] and f[005] both go with f[100], but not with each other. */
  lemma {:induction false} ChainBreaks()
    ensures var a, b, c := Range("f", 1, 1, 1, false), Range("f", 100, 100, 3, false), Range("f", 5, 5, 3, false);
            Combine(a, b).0 && Combine(b, c).0 && !Combine(a, c).0 && !Below(First(b), First(c))
  {
    assert Digits(100) == 3;
    StrCmpAntisymmetric("f", "f");
  }

  // ---- parts of ranges ----

  /** The hosts of q are some that follow one another in r. */
  ghost predicate Part(q: Range, r: Range) {
    && q.prefix == r.prefix && q.single == r.single
    && (!q.single ==> r.lo <= q.lo <= q.hi <= r.hi && Printed(q.lo, q.width) == Printed(q.lo, r.width))
  }

  lemma {:induction false} PartTransitive(p: Range, q: Range, r: Range)
    requires Part(p, q) && Part(q, r)
    ensures Part(p, r)
  {
    if !p.single {
      PrintedAgreesUpward(q.lo, p.lo, q.width, r.width);
    }
  }

  lemma {:induction false} SameHostsPart(a: Range, b: Range)
    requires SameHosts(a, b) && a.Ok()
    ensures Part(a, b) && Part(b, a)
  {}

  /** A part begins no earlier and ends no later. */
  lemma {:induction false} PartInside(q: Range, r: Range)
    requires Part(q, r) && !q.single
    ensures Below(First(r), First(q)) && Below(Last(q), Last(r))
  {
    StrCmpAntisymmetric(q.prefix, q.prefix);
    DigitsMonotone(r.lo, q.lo);
    DigitsMonotone(q.hi, r.hi);
    PrintedAgreesUpward(q.lo, q.hi, q.width, r.width);
  }

  /** What can be combined with a range can be combined with its parts. */
  lemma {:induction false} PartCombines(q: Range, r: Range, c: Range)
    requires Part(q, r) && !q.single && !c.single && Combine(r, c).0
    ensures Combine(q, c).0
  {
    var w := Combine(r, c).1.width;
    PrintedAgreesUpward(r.lo, q.lo, r.width, w);
    UniformCombines(q, c, w);
  }

  lemma {:induction false} PartAgrees(q: Range, r: Range, c: Range)
    requires Part(q, r) && Agrees(r, c)
    ensures Agrees(q, c)
  {
    if !q.single && !c.single && q.prefix == c.prefix {
      PartInside(q, r);
      if Combine(r, c).0 {
        PartCombines(q, r, c);
      } else if Compare(Last(r), First(c)) <= 0 {
        CompareTransitive(Last(q), Last(r), First(c));
      } else {
        CompareTransitive(Last(c), First(r), First(q));
      }
    }
  }

  lemma {:induction false} PartsOfTwoAgree(q: Range, r: Range, u: Range, v: Range)
    requires Part(q, r) && Part(u, v) && Agrees(r, v)
    ensures Agrees(q, u)
  {
    PartAgrees(q, r, v);
    AgreesSymmetric(q, v);
    PartAgrees(u, v, q);
    AgreesSymmetric(u, q);
  }

  ghost predicate PartAt(qs: seq<Range>, k: int, rs: seq<Range>) {
    0 <= k < |qs| ==> exists l :: 0 <= l < |rs| && Part(qs[k], rs[l])
  }

  ghost predicate Parts(qs: seq<Range>, rs: seq<Range>) { forall k :: PartAt(qs, k, rs) }

  /** Parts of ranges that agree with one another agree. */
  lemma {:induction false} PartsAgree(qs: seq<Range>, rs: seq<Range>)
    requires Parts(qs, rs) && AllAgree(rs)
    ensures AllAgree(qs)
  {
    forall i, j | 0 <= i < |qs| && 0 <= j < |qs|
      ensures Agrees(qs[i], qs[j])
    {
      assert PartAt(qs, i, rs) && PartAt(qs, j, rs);
      var k :| 0 <= k < |rs| && Part(qs[i], rs[k]);
      var l :| 0 <= l < |rs| && Part(qs[j], rs[l]);
      PartsOfTwoAgree(qs[i], rs[k], qs[j], rs[l]);
    }
  }

  lemma {:induction false} PartsTransitive(ps: seq<Range>, qs: seq<Range>, rs: seq<Range>)
    requires Parts(ps, qs) && Parts(qs, rs)
    ensures Parts(ps, rs)
  {
    forall k
      ensures PartAt(ps, k, rs)
    {
      if 0 <= k < |ps| {
        assert PartAt(ps, k, qs);
        var l :| 0 <= l < |qs| && Part(ps[k], qs[l]);
        assert PartAt(qs, l, rs);
        var m :| 0 <= m < |rs| && Part(qs[l], rs[m]);
        PartTransitive(ps[k], qs[l], rs[m]);
      }
    }
  }

  // ---- the same ranges, in some order and with some widths ----

  ghost predicate Alike(qs: seq<Range>, rs: seq<Range>) { Parts(qs, rs) && Parts(rs, qs) }

  lemma {:induction false} AlikeAgree(qs: seq<Range>, rs: seq<Range>)
    requires Alike(qs, rs)
    ensures AllAgree(qs) <==> AllAgree(rs)
  {
    if AllAgree(rs) {
      PartsAgree(qs, rs);
    }
    if AllAgree(qs) {
      PartsAgree(rs, qs);
    }
  }

  lemma {:induction false} AlikeTransitive(ps: seq<Range>, qs: seq<Range>, rs: seq<Range>)
    requires Alike(ps, qs) && Alike(qs, rs)
    ensures Alike(ps, rs)
  {
    PartsTransitive(ps, qs, rs);
    PartsTransitive(rs, qs, ps);
  }

  lemma {:induction false} AlikeItself(rs: seq<Range>)
    requires AllOk(rs)
    ensures Alike(rs, rs)
  {
    Rearranged(rs, rs, k => k, k => k);
  }

  /** Each range of qs is one of rs with the same hosts, given the place to look at, and the other way round. */
  lemma {:induction false} Rearranged(qs: seq<Range>, rs: seq<Range>, at: int -> int, back: int -> int)
    requires AllOk(rs)
    requires forall k :: 0 <= k < |qs| ==> 0 <= at(k) < |rs| && SameHosts(rs[at(k)], qs[k])
    requires forall k :: 0 <= k < |rs| ==> 0 <= back(k) < |qs| && SameHosts(rs[k], qs[back(k)])
    ensures Alike(qs, rs)
  {
    forall k
      ensures PartAt(qs, k, rs)
    {
      if 0 <= k < |qs| {
        SameHostsPart(rs[at(k)], qs[k]);
      }
    }
    forall k
      ensures PartAt(rs, k, qs)
    {
      if 0 <= k < |rs| {
        SameHostsPart(rs[k], qs[back(k)]);
      }
    }
  }

  /** Neighbours stored back, perhaps with other widths. */
  lemma {:induction false} StoreAlike(rs: seq<Range>, j: nat, a: Range, b: Range)
    requires 0 < j < |rs| && AllOk(rs) && SameHosts(rs[j - 1], a) && SameHosts(rs[j], b)
    ensures Alike(rs[j - 1 := a][j := b], rs)
  {
    Rearranged(rs[j - 1 := a][j := b], rs, k => k, k => k);
  }

  /** Neighbours stored back the other way round. */
  lemma {:induction false} SwapAlike(rs: seq<Range>, j: nat, a: Range, b: Range)
    requires 0 < j < |rs| && AllOk(rs) && SameHosts(rs[j - 1], a) && SameHosts(rs[j], b)
    ensures Alike(rs[j - 1 := b][j := a], rs)
  {
    var swap := k => if k == j then j - 1 else if k == j - 1 then j else k;
    Rearranged(rs[j - 1 := b][j := a], rs, swap, swap);
  }
}
