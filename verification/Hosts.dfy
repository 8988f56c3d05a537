/** Hosts, their total order, and the ranges that abbreviate runs of them. */
module Hosts {
  import opened Decimal
  import opened Seqs

  /** One past the largest unsigned long. */
  const ULONG_MOD: nat := 0x1_0000_0000_0000_0000

  type ulong = n: nat | n < 0x1_0000_0000_0000_0000

  /** Unsigned decrement, wrapping at zero. */
  function Pred(n: ulong): ulong {
    if n == 0 then ULONG_MOD - 1 else n - 1
  }

  /** Unsigned increment, wrapping at the top. */
  function Succ(n: ulong): ulong {
    if n == ULONG_MOD - 1 then 0 else n + 1
  }

  // ---- hosts ----

  /** A host is a bare name, or a prefix and a number printed in exactly len characters. */
  datatype Host = Single(name: string) | Numbered(prefix: string, num: nat, len: nat)

  function Name(h: Host): string {
    match h
    case Single(name) => name
    case Numbered(prefix, num, len) => prefix + Numeral(num, len)
  }

  function Names(hs: seq<Host>): (ns: seq<string>)
    ensures |ns| == |hs|
    ensures forall i :: 0 <= i < |hs| ==> ns[i] == Name(hs[i])
  {
    seq(|hs|, i requires 0 <= i < |hs| => Name(hs[i]))
  }

  /** The sign of C's strcmp. */
  function StrCmp(a: string, b: string): (c: int)
    ensures -1 <= c <= 1
  {
    if a == "" then (if b == "" then 0 else -1)
    else if b == "" then 1
    else if a[0] < b[0] then -1
    else if b[0] < a[0] then 1
    else StrCmp(a[1..], b[1..])
  }

  /** The smaller of the first two characters that differ decides. */
  lemma {:induction false} FirstDifference(p: string, x: char, y: char, s: string, t: string)
    requires x < y
    ensures StrCmp(p + [x] + s, p + [y] + t) < 0
  {
    var a, b := p + [x] + s, p + [y] + t;
    if p != "" {
      FirstDifference(p[1..], x, y, s, t);
      assert a[1..] == p[1..] + [x] + s && b[1..] == p[1..] + [y] + t;
    }
  }

  /** A text comes before the longer ones that begin with it. */
  lemma {:induction false} BeginningFirst(p: string, y: char, t: string)
    ensures StrCmp(p, p + [y] + t) < 0
  {
    if p != "" {
      BeginningFirst(p[1..], y, t);
      assert (p + [y] + t)[1..] == p[1..] + [y] + t;
    }
  }

  /** a and b are the same up to n, where a ends, or has the smaller character. */
  ghost predicate PartsAt(a: string, b: string, n: nat) {
    n <= |a| && n < |b| && a[..n] == b[..n] && (n < |a| ==> a[n] < b[n])
  }

  /** The order of a dictionary. */
  ghost predicate TextBefore(a: string, b: string) { exists n :: PartsAt(a, b, n) }

  lemma {:induction false} TextsPart(a: string, b: string) returns (n: nat)
    requires a != b
    ensures PartsAt(a, b, n) || PartsAt(b, a, n)
  {
    n := 0;
    if a != "" && b != "" && a[0] == b[0] {
      assert a == [a[0]] + a[1..] && b == [b[0]] + b[1..];
      var m := TextsPart(a[1..], b[1..]);
      n := m + 1;
      assert a[..n] == [a[0]] + a[1..][..m] && b[..n] == [b[0]] + b[1..][..m];
    }
  }

  lemma {:induction false} PartsAtDecides(a: string, b: string, n: nat)
    requires PartsAt(a, b, n)
    ensures StrCmp(a, b) < 0
  {
    assert b == b[..n] + [b[n]] + b[n + 1..];
    if n < |a| {
      assert a == a[..n] + [a[n]] + a[n + 1..];
      FirstDifference(a[..n], a[n], b[n], a[n + 1..], b[n + 1..]);
    } else {
      assert a == a[..n];
      BeginningFirst(a, b[n], b[n + 1..]);
    }
  }

  /** strcmp is negative exactly for texts in the order of a dictionary. */
  lemma {:induction false} StrCmpIsDictionary(a: string, b: string)
    ensures StrCmp(a, b) < 0 <==> TextBefore(a, b)
  {
    StrCmpAntisymmetric(a, b);
    if a != b {
      var n := TextsPart(a, b);
      if PartsAt(a, b, n) {
        PartsAtDecides(a, b, n);
      } else {
        PartsAtDecides(b, a, n);
      }
    }
    if TextBefore(a, b) {
      var n :| PartsAt(a, b, n);
      PartsAtDecides(a, b, n);
    }
  }

  lemma {:induction false} StrCmpAntisymmetric(a: string, b: string)
    ensures StrCmp(a, b) == -StrCmp(b, a)
    ensures StrCmp(a, b) == 0 <==> a == b
  {
    if a != "" && b != "" && a[0] == b[0] {
      StrCmpAntisymmetric(a[1..], b[1..]);
      assert a == [a[0]] + a[1..] && b == [b[0]] + b[1..];
    }
  }

  lemma {:induction false} StrCmpTransitive(a: string, b: string, c: string)
    requires StrCmp(a, b) <= 0 && StrCmp(b, c) <= 0
    ensures StrCmp(a, c) <= 0
    ensures StrCmp(a, b) < 0 || StrCmp(b, c) < 0 ==> StrCmp(a, c) < 0
  {
    if a != "" && b != "" && c != "" && a[0] == b[0] == c[0] {
      StrCmpTransitive(a[1..], b[1..], c[1..]);
    }
  }

  /** Prefix by strcmp, bare names first, then length of the printed number, then its value. */
  function Compare(h: Host, k: Host): int {
    var c := StrCmp(PrefixOf(h), PrefixOf(k));
    if c != 0 then c
    else if h.Single? then (if k.Single? then 0 else -1)
    else if k.Single? then 1
    else if h.len != k.len then h.len - k.len
    else h.num - k.num
  }

  function PrefixOf(h: Host): string {
    match h case Single(name) => name case Numbered(prefix, _, _) => prefix
  }

  ghost predicate Below(h: Host, k: Host) { Compare(h, k) <= 0 }

  lemma {:induction false} CompareAntisymmetric(h: Host, k: Host)
    ensures Compare(h, k) > 0 <==> Compare(k, h) < 0
    ensures Compare(h, k) == 0 <==> h == k
  {
    StrCmpAntisymmetric(PrefixOf(h), PrefixOf(k));
  }

  lemma {:induction false} CompareTransitive(h: Host, k: Host, l: Host)
    requires Compare(h, k) <= 0 && Compare(k, l) <= 0
    ensures Compare(h, l) <= 0
    ensures Compare(h, k) < 0 || Compare(k, l) < 0 ==> Compare(h, l) < 0
  {
    StrCmpAntisymmetric(PrefixOf(h), PrefixOf(k));
    StrCmpAntisymmetric(PrefixOf(k), PrefixOf(l));
    StrCmpTransitive(PrefixOf(h), PrefixOf(k), PrefixOf(l));
  }

  /** The host order is a total order. */
  lemma {:induction false} HostOrderTotal(h: Host, k: Host, l: Host)
    ensures Below(h, k) || Below(k, h)
    ensures Below(h, k) && Below(k, h) ==> h == k
    ensures Below(h, k) && Below(k, l) ==> Below(h, l)
  {
    CompareAntisymmetric(h, k);
    CompareAntisymmetric(k, h);
    if Below(h, k) && Below(k, l) {
      CompareTransitive(h, k, l);
    }
  }

  /** Prefixes in dictionary order; then a bare name before numbered hosts, shorter numbers first, then by value. */
  ghost predicate Prior(h: Host, k: Host) {
    if PrefixOf(h) != PrefixOf(k) then TextBefore(PrefixOf(h), PrefixOf(k))
    else if h.Single? || k.Single? then h.Single? && k.Numbered?
    else h.len < k.len || (h.len == k.len && h.num < k.num)
  }

  lemma {:induction false} CompareIsPrior(h: Host, k: Host)
    ensures Compare(h, k) < 0 <==> Prior(h, k)
  {
    StrCmpAntisymmetric(PrefixOf(h), PrefixOf(k));
    StrCmpIsDictionary(PrefixOf(h), PrefixOf(k));
  }

  ghost predicate RisesAt(hs: seq<Host>, i: int, j: int, strict: bool) {
    0 <= i < j < |hs| ==> Prior(hs[i], hs[j]) || (!strict && hs[i] == hs[j])
  }

  /** The hosts rise; unless strictly, one may be there several times. */
  ghost predicate Ascending(hs: seq<Host>, strict: bool) { forall i, j :: RisesAt(hs, i, j, strict) }

  /** h comes before k, strictly or not. */
  ghost predicate Before(h: Host, k: Host, strict: bool) {
    if strict then Compare(h, k) < 0 else Compare(h, k) <= 0
  }

  ghost predicate Ordered(hs: seq<Host>, strict: bool) {
    forall i, j :: 0 <= i < j < |hs| ==> Before(hs[i], hs[j], strict)
  }

  lemma {:induction false} OrderedIsAscending(hs: seq<Host>, strict: bool)
    ensures Ordered(hs, strict) <==> Ascending(hs, strict)
  {
    forall i, j | 0 <= i < j < |hs|
      ensures Before(hs[i], hs[j], strict) <==> RisesAt(hs, i, j, strict)
    {
      CompareIsPrior(hs[i], hs[j]);
      CompareAntisymmetric(hs[i], hs[j]);
    }
  }

  lemma {:induction false} BeforeTransitive(h: Host, k: Host, l: Host, strict: bool)
    requires (Before(h, k, strict) && Compare(k, l) <= 0) || (Compare(h, k) <= 0 && Before(k, l, strict))
    ensures Before(h, l, strict)
  {
    CompareTransitive(h, k, l);
  }

  /** Two ordered sequences in order make one. */
  lemma {:induction false} OrderedConcat(a: seq<Host>, b: seq<Host>, strict: bool)
    requires Ordered(a, strict) && Ordered(b, strict)
    requires a != [] && b != [] && Before(a[|a| - 1], b[0], strict)
    ensures Ordered(a + b, strict)
  {
    forall i, j | 0 <= i < |a| && 0 <= j < |b|
      ensures Before(a[i], b[j], strict)
    {
      CompareAntisymmetric(a[i], a[i]);
      CompareAntisymmetric(b[0], b[0]);
      BeforeTransitive(a[i], a[|a| - 1], b[0], strict);
      BeforeTransitive(a[i], b[0], b[j], strict);
    }
  }

  // ---- ranges ----

  /** One record of a host list; a single host keeps lo, hi and width at zero. */
  datatype Range = Range(prefix: string, lo: ulong, hi: ulong, width: nat, single: bool) {

    /** What every stored range satisfies: at least one host, and hi + 1 does not wrap. */
    predicate Ok() {
      if single then lo == 0 && hi == 0 && width == 0 else lo <= hi < ULONG_MOD - 1
    }

    function Count(): (n: int) {
      if single then 1 else hi - lo + 1
    }
  }

  /** The hosts numbered lo up to hi. */
  function Run(prefix: string, width: nat, lo: nat, hi: int): (hs: seq<Host>)
    ensures |hs| == if hi < lo then 0 else hi - lo + 1
    decreases hi - lo + 1
  {
    if hi < lo then [] else Run(prefix, width, lo, hi - 1) + [Numbered(prefix, hi, Printed(hi, width))]
  }

  function HostsOf(r: Range): (hs: seq<Host>)
    ensures r.Ok() ==> |hs| == r.Count()
  {
    if r.single then [Single(r.prefix)] else Run(r.prefix, r.width, r.lo, r.hi)
  }

  lemma {:induction false} RunAt(prefix: string, width: nat, lo: nat, hi: int, k: nat)
    requires lo + k <= hi
    ensures Run(prefix, width, lo, hi)[k] == Numbered(prefix, lo + k, Printed(lo + k, width))
    decreases hi - lo
  {
    if lo + k < hi {
      RunAt(prefix, width, lo, hi - 1, k);
    }
  }

  lemma {:induction false} RunConcat(prefix: string, width: nat, lo: nat, mid: int, hi: int)
    requires lo <= mid + 1 && mid <= hi
    ensures Run(prefix, width, lo, hi) == Run(prefix, width, lo, mid) + Run(prefix, width, mid + 1, hi)
    decreases hi - mid
  {
    if mid < hi {
      RunConcat(prefix, width, lo, mid, hi - 1);
      Assoc(Run(prefix, width, lo, mid), Run(prefix, width, mid + 1, hi - 1),
            [Numbered(prefix, hi, Printed(hi, width))]);
    }
  }

  /** A host is in a run when it has the prefix, a number within the bounds and the printed length. */
  lemma {:induction false} RunMembers(prefix: string, width: nat, lo: nat, hi: int)
    ensures forall h :: h in Run(prefix, width, lo, hi) <==>
                          h.Numbered? && h.prefix == prefix && lo <= h.num <= hi && h.len == Printed(h.num, width)
    decreases hi - lo + 1
  {
    if lo <= hi {
      RunMembers(prefix, width, lo, hi - 1);
    }
  }

  /** Two widths that print the low end alike give the same run. */
  lemma {:induction false} RunRewidth(prefix: string, w: nat, w': nat, lo: nat, hi: int)
    requires Printed(lo, w) == Printed(lo, w')
    ensures Run(prefix, w, lo, hi) == Run(prefix, w', lo, hi)
    decreases hi - lo + 1
  {
    if lo <= hi {
      RunRewidth(prefix, w, w', lo, hi - 1);
      PrintedAgreesUpward(lo, hi, w, w');
    }
  }

  function First(r: Range): Host {
    if r.single then Single(r.prefix) else Numbered(r.prefix, r.lo, Printed(r.lo, r.width))
  }

  function Last(r: Range): Host {
    if r.single then Single(r.prefix) else Numbered(r.prefix, r.hi, Printed(r.hi, r.width))
  }

  ghost predicate AllOk(rs: seq<Range>) { forall i :: 0 <= i < |rs| ==> rs[i].Ok() }

  /** The hosts of the first n ranges. */
  function ExpandTo(rs: seq<Range>, n: nat): seq<Host>
    requires n <= |rs|
  {
    if n == 0 then [] else ExpandTo(rs, n - 1) + HostsOf(rs[n - 1])
  }

  /** The plain sequence of hosts that a list of ranges stands for. */
  function Expand(rs: seq<Range>): seq<Host> { ExpandTo(rs, |rs|) }

  /** Each well-formed range brings at least one host. */
  lemma {:induction false} ExpandToGrows(rs: seq<Range>, i: nat, j: nat)
    requires i <= j <= |rs| && AllOk(rs)
    ensures |ExpandTo(rs, i)| + j - i <= |ExpandTo(rs, j)|
  {
    if i < j {
      ExpandToGrows(rs, i, j - 1);
    }
  }

  lemma {:induction false} ExpandToLocal(rs: seq<Range>, qs: seq<Range>, n: nat)
    requires n <= |rs| && n <= |qs| && rs[..n] == qs[..n]
    ensures ExpandTo(rs, n) == ExpandTo(qs, n)
  {
    if n > 0 {
      assert rs[n - 1] == rs[..n][n - 1] == qs[..n][n - 1];
      assert rs[..n - 1] == rs[..n][..n - 1] == qs[..n][..n - 1];
      ExpandToLocal(rs, qs, n - 1);
    }
  }

  /** One more range at the end. */
  lemma {:induction false} ExpandSnoc(a: seq<Range>, r: Range)
    ensures Expand(a + [r]) == Expand(a) + HostsOf(r)
  {
    ExpandToLocal(a + [r], a, |a|);
  }

  lemma {:induction false} ExpandOne(r: Range)
    ensures Expand([r]) == HostsOf(r)
  {
    ExpandSnoc([], r);
    assert [] + [r] == [r] && [] + HostsOf(r) == HostsOf(r);
  }

  lemma {:induction false} ExpandConcat(a: seq<Range>, b: seq<Range>)
    ensures Expand(a + b) == Expand(a) + Expand(b)
  {
    if b == [] {
      assert a + b == a;
    } else {
      var n := |b| - 1;
      assert b == b[..n] + [b[n]];
      assert a + b == (a + b[..n]) + [b[n]];
      ExpandConcat(a, b[..n]);
      ExpandSnoc(a + b[..n], b[n]);
      ExpandSnoc(b[..n], b[n]);
      Assoc(Expand(a), Expand(b[..n]), HostsOf(b[n]));
    }
  }

  /** Cutting a list around range i cuts its hosts there. */
  lemma {:induction false} ExpandSplit(rs: seq<Range>, i: nat)
    requires i < |rs|
    ensures Expand(rs) == Expand(rs[..i]) + HostsOf(rs[i]) + Expand(rs[i + 1..])
    ensures Expand(rs[..i]) == ExpandTo(rs, i)
  {
    Cut(rs, i);
    ExpandSnoc(rs[..i], rs[i]);
    ExpandConcat(rs[..i] + [rs[i]], rs[i + 1..]);
    ExpandToLocal(rs, rs[..i], i);
  }

  /** Replacing a stretch of ranges replaces its hosts. */
  lemma {:induction false} ExpandThree(a: seq<Range>, b: seq<Range>, c: seq<Range>)
    ensures Expand(a + b + c) == Expand(a) + Expand(b) + Expand(c)
  {
    ExpandConcat(a, b);
    ExpandConcat(a + b, c);
  }

  lemma {:induction false} ExpandPointwise(rs: seq<Range>, qs: seq<Range>, n: nat)
    requires n <= |rs| && n <= |qs|
    requires forall i :: 0 <= i < n ==> HostsOf(rs[i]) == HostsOf(qs[i])
    ensures ExpandTo(rs, n) == ExpandTo(qs, n)
  {
    if n > 0 {
      ExpandPointwise(rs, qs, n - 1);
    }
  }

  lemma {:induction false} HostsEnds(r: Range)
    requires r.Ok()
    ensures HostsOf(r)[0] == First(r) && HostsOf(r)[|HostsOf(r)| - 1] == Last(r)
  {
    if !r.single {
      RunAt(r.prefix, r.width, r.lo, r.hi, 0);
    }
  }

  lemma {:induction false} RunOrdered(prefix: string, width: nat, lo: nat, hi: int)
    ensures Ordered(Run(prefix, width, lo, hi), true)
    decreases hi - lo + 1
  {
    if lo < hi {
      RunOrdered(prefix, width, lo, hi - 1);
      var front := Run(prefix, width, lo, hi - 1);
      DigitsMonotone(hi - 1, hi);
      StrCmpAntisymmetric(prefix, prefix);
      OrderedConcat(front, [Numbered(prefix, hi, Printed(hi, width))], true);
    }
  }

  lemma {:induction false} Weaken(hs: seq<Host>)
    requires Ordered(hs, true)
    ensures Ordered(hs, false)
  {
    forall i, j | 0 <= i < j < |hs|
      ensures Before(hs[i], hs[j], false)
    {
      assert Before(hs[i], hs[j], true);
    }
  }

  lemma {:induction false} RangeOrdered(r: Range, strict: bool)
    ensures Ordered(HostsOf(r), strict)
  {
    if !r.single {
      RunOrdered(r.prefix, r.width, r.lo, r.hi);
      Weaken(HostsOf(r));
    }
  }

  lemma {:induction false} ExpandToLast(rs: seq<Range>, n: nat)
    requires 0 < n <= |rs| && rs[n - 1].Ok()
    ensures ExpandTo(rs, n) != [] && ExpandTo(rs, n)[|ExpandTo(rs, n)| - 1] == Last(rs[n - 1])
  {
    HostsEnds(rs[n - 1]);
    DropLast(ExpandTo(rs, n - 1), HostsOf(rs[n - 1]));
  }

  /** Ranges each ending before the next begins have an ordered expansion. */
  lemma {:induction false} ChainOrdered(rs: seq<Range>, n: nat, strict: bool)
    requires n <= |rs| && AllOk(rs)
    requires forall k :: 0 < k < n ==> Before(Last(rs[k - 1]), First(rs[k]), strict)
    ensures Ordered(ExpandTo(rs, n), strict)
  {
    if n > 0 {
      ChainOrdered(rs, n - 1, strict);
      RangeOrdered(rs[n - 1], strict);
      if n > 1 {
        ExpandToLast(rs, n - 1);
        HostsEnds(rs[n - 1]);
        OrderedConcat(ExpandTo(rs, n - 1), HostsOf(rs[n - 1]), strict);
      }
    }
  }

  /** Every host of a list is in one of its ranges. */
  lemma {:induction false} HostHasRange(rs: seq<Range>, n: nat, h: Host) returns (i: nat)
    requires n <= |rs| && h in ExpandTo(rs, n)
    ensures i < n && h in HostsOf(rs[i])
  {
    if h in HostsOf(rs[n - 1]) {
      i := n - 1;
    } else {
      i := HostHasRange(rs, n - 1, h);
    }
  }

  /** Every host of a range is in the list. */
  lemma {:induction false} RangeInList(rs: seq<Range>, n: nat, i: nat, h: Host)
    requires i < n <= |rs| && h in HostsOf(rs[i])
    ensures h in ExpandTo(rs, n)
  {
    if i < n - 1 {
      RangeInList(rs, n - 1, i, h);
    }
  }

  // ---- widths ----

  /** Same hosts, though the stored width may differ. */
  ghost predicate SameHosts(a: Range, b: Range) {
    && b == a.(width := b.width)
    && HostsOf(a) == HostsOf(b)
    && First(a) == First(b) && Last(a) == Last(b)
    && (a.Ok() ==> b.Ok())
  }

  /** Changing a width that prints lo alike changes no host. */
  lemma {:induction false} RewidthKeepsHosts(r: Range, w: nat)
    requires !r.single && r.Ok() && Printed(r.lo, r.width) == Printed(r.lo, w)
    ensures SameHosts(r, r.(width := w))
  {
    RunRewidth(r.prefix, r.width, w, r.lo, r.hi);
    PrintedAgreesUpward(r.lo, r.hi, r.width, w);
  }

  /** The outcome of the width comparison: can the two be combined, and with which widths afterwards. */
  function WidthEquiv(n: nat, wn: nat, m: nat, wm: nat): (r: (bool, nat, nat)) {
    if Printed(n, wn) != Printed(n, wm) then
      if Printed(m, wm) == Printed(m, wn) then (true, wn, wn) else (false, wn, wm)
    else (true, wm, wm)
  }

  /** Ranges a and b after a width comparison of their low ends. */
  function Combine(a: Range, b: Range): (bool, Range, Range) {
    var e := WidthEquiv(a.lo, a.width, b.lo, b.width);
    (e.0, a.(width := e.1), b.(width := e.2))
  }

  lemma {:induction false} CombineKeepsHosts(a: Range, b: Range)
    requires a.single == b.single && a.Ok() && b.Ok()
    ensures SameHosts(a, Combine(a, b).1) && SameHosts(b, Combine(a, b).2)
    ensures Combine(a, b).0 ==> Combine(a, b).1.width == Combine(a, b).2.width
  {
    var e := Combine(a, b);
    if !a.single {
      RewidthKeepsHosts(a, e.1.width);
      RewidthKeepsHosts(b, e.2.width);
    }
  }

  /** Hosts of each prefix print as one width W(prefix) would print them. */
  ghost predicate Uniform(hs: seq<Host>, W: string -> nat) {
    forall h :: h in hs && h.Numbered? ==> h.len == Printed(h.num, W(h.prefix))
  }

  /** Under a common width any two ranges of one prefix can be combined. */
  lemma {:induction false} UniformCombines(a: Range, b: Range, w: nat)
    requires !a.single && !b.single
    requires Printed(a.lo, a.width) == Printed(a.lo, w) && Printed(b.lo, b.width) == Printed(b.lo, w)
    ensures Combine(a, b).0
  {}
}
