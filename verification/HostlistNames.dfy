/** When two different hosts of a list have one name: a number may begin in one prefix's digits. */
module HostlistNames {
  import opened Decimal
  import opened Hosts

  /** Two different hosts have the same name. */
  ghost predicate NameClash(hs: seq<Host>) {
    exists h, k :: h in hs && k in hs && h != k && Name(h) == Name(k)
  }

  ghost predicate NoNameTwice(hs: seq<Host>) {
    forall i, j :: 0 <= i < j < |hs| ==> Name(hs[i]) != Name(hs[j])
  }

  /** Without repeated hosts, no name comes twice exactly when no two hosts clash. */
  lemma {:induction false} TwiceIff(hs: seq<Host>)
    requires Ordered(hs, true)
    ensures NoNameTwice(hs) <==> !NameClash(hs)
  {
    forall i, j | 0 <= i < j < |hs|
      ensures hs[i] != hs[j]
    {
      assert Before(hs[i], hs[j], true);
      CompareAntisymmetric(hs[i], hs[j]);
    }
    if h, k :| h in hs && k in hs && h != k && Name(h) == Name(k) {
      var i :| 0 <= i < |hs| && hs[i] == h;
      var j :| 0 <= j < |hs| && hs[j] == k;
      assert i < j || j < i;
    }
  }

  // ---- which names a range has ----

  /** Is x the name of one of the hosts of the range? */
  predicate Has(r: Range, x: string) {
    if r.single then x == r.prefix
    else
      && |r.prefix| < |x| && x[..|r.prefix|] == r.prefix && AllDigits(x[|r.prefix|..])
      && r.lo <= Value(x[|r.prefix|..]) <= r.hi
      && Printed(Value(x[|r.prefix|..]), r.width) == |x| - |r.prefix|
  }

  /** The host of a range that has this name. */
  function HostNamed(r: Range, x: string): Host
    requires Has(r, x)
  {
    if r.single then Single(x)
    else Numbered(r.prefix, Value(x[|r.prefix|..]), |x| - |r.prefix|)
  }

  lemma {:induction false} HasHost(r: Range, x: string)
    requires Has(r, x)
    ensures HostNamed(r, x) in HostsOf(r) && Name(HostNamed(r, x)) == x
  {
    if !r.single {
      RunMembers(r.prefix, r.width, r.lo, r.hi);
      NumeralOfValue(x[|r.prefix|..]);
      assert x == r.prefix + x[|r.prefix|..];
    }
  }

  lemma {:induction false} HostHas(r: Range, h: Host)
    requires h in HostsOf(r)
    ensures Has(r, Name(h)) && HostNamed(r, Name(h)) == h
  {
    if !r.single {
      RunMembers(r.prefix, r.width, r.lo, r.hi);
      ValueOfNumeral(h.num, h.len);
      assert Name(h)[|r.prefix|..] == Numeral(h.num, h.len);
    }
  }

  /** Does a host of s, which has another prefix, have a name that r has too? */
  predicate Confusable(r: Range, s: Range) {
    && !r.single && r.prefix != s.prefix
    && if s.single then Has(r, s.prefix)
       else exists m :: s.lo <= m <= s.hi && Has(r, s.prefix + Format(m, s.width))
  }

  predicate AnyConfusable(rs: seq<Range>) {
    exists i, j :: 0 <= i < |rs| && 0 <= j < |rs| && Confusable(rs[i], rs[j])
  }

  lemma {:induction false} ConfusedBy(r: Range, s: Range, k: Host)
    requires !r.single && r.prefix != s.prefix && k in HostsOf(s) && Has(r, Name(k))
    ensures Confusable(r, s)
  {
    if !s.single {
      RunMembers(s.prefix, s.width, s.lo, s.hi);
      assert Name(k) == s.prefix + Format(k.num, s.width);
    }
  }

  /** Different hosts of two ranges with the same name make the ranges confusable, one way round or the other. */
  lemma {:induction false} ClashConfuses(r: Range, s: Range, h: Host, k: Host)
    requires h in HostsOf(r) && k in HostsOf(s) && h != k && Name(h) == Name(k)
    ensures Confusable(r, s) || Confusable(s, r)
  {
    HostHas(r, h);
    HostHas(s, k);
    assert r.prefix != s.prefix;
    if !r.single {
      ConfusedBy(r, s, k);
    } else {
      ConfusedBy(s, r, h);
    }
  }

  lemma {:induction false} ConfusionClashes(r: Range, s: Range) returns (h: Host, k: Host)
    requires Confusable(r, s)
    ensures h in HostsOf(r) && k in HostsOf(s) && h != k && Name(h) == Name(k)
  {
    if s.single {
      k := Single(s.prefix);
    } else {
      var m :| s.lo <= m <= s.hi && Has(r, s.prefix + Format(m, s.width));
      k := Numbered(s.prefix, m, Printed(m, s.width));
      RunMembers(s.prefix, s.width, s.lo, s.hi);
    }
    h := HostNamed(r, Name(k));
    HasHost(r, Name(k));
  }

  /** Different hosts of a list share a name exactly when two of its ranges are confusable. */
  lemma {:induction false} ClashIff(rs: seq<Range>)
    ensures NameClash(Expand(rs)) <==> AnyConfusable(rs)
  {
    if NameClash(Expand(rs)) {
      var h, k :| h in Expand(rs) && k in Expand(rs) && h != k && Name(h) == Name(k);
      var i := HostHasRange(rs, |rs|, h);
      var j := HostHasRange(rs, |rs|, k);
      ClashConfuses(rs[i], rs[j], h, k);
    }
    if i, j :| 0 <= i < |rs| && 0 <= j < |rs| && Confusable(rs[i], rs[j]) {
      var h, k := ConfusionClashes(rs[i], rs[j]);
      RangeInList(rs, |rs|, i, h);
      RangeInList(rs, |rs|, j, k);
    }
  }

  predicate EndsInDigit(x: string) { x != "" && IsDigit(x[|x| - 1]) }

  /** One text cut in two ways into a prefix and digits: the longer prefix ends in a digit. */
  lemma {:induction false} TwoCuts(p: string, q: string, digits: string)
    requires AllDigits(digits) && |p| <= |q + digits|
    requires (q + digits)[..|p|] == p && AllDigits((q + digits)[|p|..])
    ensures p == q || EndsInDigit(p) || EndsInDigit(q)
  {
    var x := q + digits;
    assert x[..|q|] == q;
    if |p| < |q| {
      assert x[|p|..][|q| - 1 - |p|] == q[|q| - 1];
    } else if |q| < |p| {
      assert p[|p| - 1] == x[|p| - 1] == digits[|p| - 1 - |q|];
    }
  }

  lemma {:induction false} ConfusionNeedsDigit(r: Range, s: Range)
    requires Confusable(r, s)
    ensures EndsInDigit(r.prefix) || EndsInDigit(s.prefix)
  {
    if s.single {
      assert s.prefix + "" == s.prefix;
      TwoCuts(r.prefix, s.prefix, "");
    } else {
      var m :| s.lo <= m <= s.hi && Has(r, s.prefix + Format(m, s.width));
      TwoCuts(r.prefix, s.prefix, Format(m, s.width));
    }
  }

  /** Different hosts have different names, unless some prefix or bare name ends in a digit. */
  lemma {:induction false} ClashNeedsDigit(rs: seq<Range>)
    requires NameClash(Expand(rs))
    ensures exists k :: 0 <= k < |rs| && EndsInDigit(rs[k].prefix)
  {
    ClashIff(rs);
    var i, j :| 0 <= i < |rs| && 0 <= j < |rs| && Confusable(rs[i], rs[j]);
    ConfusionNeedsDigit(rs[i], rs[j]);
  }
}
