/** The operations on one range record, and on two; a record that C rewrites in place is passed in and handed back. */
module Hostranges {
  import opened Options
  import opened Decimal
  import opened Seqs
  import opened Hosts
  import opened Agreement

  /** Numbers and widths below this bound keep every difference inside an int. */
  const INT_BOUND: int := 0x8000_0000

  /** An unsigned long (or int) expression returned through an int. */
  function Narrow(x: int): int {
    var y := (x % ULONG_MOD) % 0x1_0000_0000;
    if y < INT_BOUND then y else y - 0x1_0000_0000
  }

  lemma {:induction false} NarrowSmall(x: int)
    requires -INT_BOUND <= x < INT_BOUND
    ensures Narrow(x) == x
  {
    if x >= 0 {
      assert x % ULONG_MOD == x;
    } else {
      assert x % ULONG_MOD == x + ULONG_MOD;
      assert (x + ULONG_MOD) % 0x1_0000_0000 == x + 0x1_0000_0000;
    }
  }

  /** What the comparator looks at fits an int. */
  predicate Small(r: Range) { r.lo < INT_BOUND && r.width < INT_BOUND }

  ghost predicate AllSmall(rs: seq<Range>) { forall i :: 0 <= i < |rs| ==> Small(rs[i]) }

  /** So does what the comparator can come to look at when the range is split. */
  predicate Bounded(r: Range) { r.hi < INT_BOUND && r.width < INT_BOUND }

  ghost predicate AllBounded(rs: seq<Range>) { forall i :: 0 <= i < |rs| ==> Bounded(rs[i]) }

  /** The number of hosts fits an int. */
  predicate Countable(r: Range) { r.Count() < INT_BOUND }

  /** All ranges from i on are countable. */
  ghost predicate AllCountable(rs: seq<Range>, i: nat) { forall k :: i <= k < |rs| ==> Countable(rs[k]) }

  lemma {:induction false} BoundedIsSmall(rs: seq<Range>)
    requires AllOk(rs) && AllBounded(rs)
    ensures AllSmall(rs)
  {
    forall i | 0 <= i < |rs|
      ensures Small(rs[i])
    {
      assert rs[i].Ok() && Bounded(rs[i]);
    }
  }

  /** strcmp of the prefixes; among equal prefixes a single host comes first. */
  function PrefixCmp(a: Range, b: Range): int {
    var c := StrCmp(a.prefix, b.prefix);
    if c == 0 then (if b.single then 1 else 0) - (if a.single then 1 else 0) else c
  }

  /** The value the sort comparator returns. */
  function CmpValue(a: Range, b: Range): int {
    if PrefixCmp(a, b) != 0 then PrefixCmp(a, b)
    else Narrow(if Combine(a, b).0 then a.lo - b.lo else a.width - b.width)
  }

  /** For small records the comparator orders ranges exactly as the host order orders their first hosts. */
  lemma {:induction false} ComparatorIsHostOrder(a: Range, b: Range)
    requires a.Ok() && b.Ok() && Small(a) && Small(b)
    ensures CmpValue(a, b) < 0 <==> Compare(First(a), First(b)) < 0
    ensures CmpValue(a, b) == 0 <==> Compare(First(a), First(b)) == 0
  {
    StrCmpAntisymmetric(a.prefix, b.prefix);
    NarrowSmall(a.lo - b.lo);
    NarrowSmall(a.width - b.width);
    if a.lo <= b.lo {
      DigitsMonotone(a.lo, b.lo);
    } else {
      DigitsMonotone(b.lo, a.lo);
    }
  }

  /** The suffix bound is exact: the comparator is right for all suffixes below B just when B <= 2^31. */
  lemma {:induction false} ComparatorBound(B: nat)
    requires B < ULONG_MOD
    ensures (forall a: Range, b: Range ::
               a.Ok() && b.Ok() && a.lo < B && b.lo < B && a.width < 2147483648 && b.width < 2147483648 ==>
                 (CmpValue(a, b) < 0 <==> Compare(First(a), First(b)) < 0))
            <==> B <= 2147483648
  {
    if B <= INT_BOUND {
      forall a: Range, b: Range |
        a.Ok() && b.Ok() && a.lo < B && b.lo < B && a.width < INT_BOUND && b.width < INT_BOUND
        ensures CmpValue(a, b) < 0 <==> Compare(First(a), First(b)) < 0
      {
        ComparatorIsHostOrder(a, b);
      }
    } else {
      var a, b := Range("n", INT_BOUND, INT_BOUND, 10, false), Range("n", 0, 0, 10, false);
      assert Digits(INT_BOUND) == 10 by { TenDigits(); }
      assert CmpValue(a, b) < 0 && Compare(First(a), First(b)) > 0;
    }
  }

  lemma {:induction false} TenDigits()
    ensures Digits(INT_BOUND) == 10
  {
    assert Digits(INT_BOUND) == 5 + Digits(21474);
  }

  /** A run around one of its numbers. */
  lemma {:induction false} CutRun(prefix: string, width: nat, lo: nat, n: nat, hi: nat)
    requires lo <= n <= hi
    ensures Run(prefix, width, lo, n - 1) == Run(prefix, width, lo, hi)[..n - lo]
    ensures Run(prefix, width, n + 1, hi) == Run(prefix, width, lo, hi)[n - lo + 1..]
  {
    RunConcat(prefix, width, lo, n - 1, hi);
    RunConcat(prefix, width, lo, n, hi);
  }

  /** No hosts left. */
  predicate Empty(r: Range) {
    r.hi < r.lo || r.hi == ULONG_MOD - 1
  }

  lemma {:induction false} CutFirst(r: Range)
    requires r.Ok() && r.lo < r.hi
    ensures r.(lo := r.lo + 1).Ok() && HostsOf(r.(lo := r.lo + 1)) == Without(HostsOf(r), 0)
  {
    CutRun(r.prefix, r.width, r.lo, r.lo, r.hi);
  }

  lemma {:induction false} CutLast(r: Range)
    requires r.Ok() && r.lo < r.hi
    ensures r.(hi := r.hi - 1).Ok() && HostsOf(r.(hi := r.hi - 1)) == Without(HostsOf(r), r.hi - r.lo)
  {
    CutRun(r.prefix, r.width, r.lo, r.hi, r.hi);
  }

  lemma {:induction false} CutMiddle(r: Range, n: ulong)
    requires r.Ok() && r.lo < n < r.hi
    ensures r.(hi := n - 1).Ok() && r.(lo := n + 1).Ok()
    ensures HostsOf(r.(hi := n - 1)) + HostsOf(r.(lo := n + 1)) == Without(HostsOf(r), n - r.lo)
  {
    CutRun(r.prefix, r.width, r.lo, n, r.hi);
    assert HostsOf(r.(hi := n - 1)) == HostsOf(r)[..n - r.lo];
    assert HostsOf(r.(lo := n + 1)) == HostsOf(r)[n - r.lo + 1..];
  }

  /** Takes number n out of r; a middle number splits r and the upper part is returned beside the lower. */
  method DeleteHost(r: Range, n: ulong) returns (r': Range, upper: Option<Range>)
    requires r.Ok() && !r.single && r.lo <= n <= r.hi
    ensures upper == None ==> (Empty(r') <==> r.lo == r.hi)
    ensures upper == None && !Empty(r') ==> r'.Ok() && HostsOf(r') == Without(HostsOf(r), n - r.lo)
    ensures upper.Some? ==>
              r'.Ok() && upper.value.Ok() && HostsOf(r') + HostsOf(upper.value) == Without(HostsOf(r), n - r.lo)
  {
    upper := None;
    if n == r.lo {
      if r.lo < r.hi {
        CutFirst(r);
      }
      r' := r.(lo := Succ(r.lo));
    } else if n == r.hi {
      CutLast(r);
      r' := r.(hi := Pred(r.hi));
    } else {
      CutMiddle(r, n);
      upper := Some(r.(lo := n + 1));
      r' := r.(hi := n - 1);
    }
  }

  /** Removes the last host of r and gives its name. */
  method PopHost(r: Range) returns (host: string, r': Range)
    requires r.Ok()
    ensures host == Name(Last(r))
    ensures Empty(r') <==> r.Count() == 1
    ensures !Empty(r') ==> r'.Ok() && HostsOf(r) == HostsOf(r') + [Last(r)]
  {
    if r.single {
      host, r' := r.prefix, r.(lo := Succ(r.lo));
    } else {
      host, r' := r.prefix + Format(r.hi, r.width), r.(hi := Pred(r.hi));
    }
  }

  /** Removes the first host of r and gives its name. */
  method ShiftHost(r: Range) returns (host: string, r': Range)
    requires r.Ok()
    ensures host == Name(First(r))
    ensures Empty(r') <==> r.Count() == 1
    ensures !Empty(r') ==> r'.Ok() && HostsOf(r) == [First(r)] + HostsOf(r')
  {
    if r.single {
      host, r' := r.prefix, r.(lo := Succ(r.lo));
    } else {
      RunConcat(r.prefix, r.width, r.lo, r.lo, r.hi);
      host, r' := r.prefix + Format(r.lo, r.width), r.(lo := Succ(r.lo));
    }
  }

  /** Zeros needed to pad num to width: counts digits by dividing. */
  method ZeroPadded(num: nat, width: nat) returns (pad: nat)
    ensures pad == Printed(num, width) - Digits(num)
  {
    var n: nat, rest: nat := 1, num / 10;
    while rest != 0
      decreases rest
      invariant Digits(num) == if rest == 0 then n else n + Digits(rest)
    {
      n, rest := n + 1, rest / 10;
    }
    pad := if width > n then width - n else 0;
  }

  /** Compares two widths by their effect on n and m; on success the two widths come out equal. */
  method CompareWidths(n: nat, wn: nat, m: nat, wm: nat) returns (ok: bool, wn': nat, wm': nat)
    ensures (ok, wn', wm') == WidthEquiv(n, wn, m, wm)
  {
    wn', wm' := wn, wm;
    var npad := ZeroPadded(n, wn);
    var nmpad := ZeroPadded(n, wm);
    var mpad := ZeroPadded(m, wm);
    var mnpad := ZeroPadded(m, wn);
    if npad != nmpad && mpad != mnpad {
      return false, wn, wm;
    }
    if npad != nmpad {
      wm' := wn;
    } else {
      wn' := wm;
    }
    ok := true;
  }

  /** The sort comparator; comparing two ranges may rewrite a width, never a host. */
  method Cmp(a: Range, b: Range) returns (retval: int, a': Range, b': Range)
    requires a.Ok() && b.Ok()
    ensures retval == CmpValue(a, b) == CmpValue(a', b')
    ensures SameHosts(a, a') && SameHosts(b, b')
    ensures Small(a) && Small(b) ==> Small(a') && Small(b')
  {
    retval, a', b' := PrefixCmp(a, b), a, b;
    if retval == 0 {
      StrCmpAntisymmetric(a.prefix, b.prefix);
      CombineKeepsHosts(a, b);
      var ok, wa, wb := CompareWidths(a.lo, a.width, b.lo, b.width);
      a', b' := a.(width := wa), b.(width := wb);
      retval := Narrow(if ok then a.lo - b.lo else a.width - b.width);
    }
  }

  /** The widths a comparison has rewritten matter to no other: each record keeps its side of every third one. */
  lemma {:induction false} CmpKeepsOrder(a: Range, a': Range, c: Range)
    requires a.Ok() && c.Ok() && Small(a) && Small(a') && Small(c) && SameHosts(a, a')
    ensures CmpValue(a', c) < 0 <==> CmpValue(a, c) < 0
    ensures CmpValue(c, a') < 0 <==> CmpValue(c, a) < 0
    ensures CmpValue(a', c) == 0 <==> CmpValue(a, c) == 0
  {
    ComparatorIsHostOrder(a, c);
    ComparatorIsHostOrder(a', c);
    ComparatorIsHostOrder(c, a);
    ComparatorIsHostOrder(c, a');
  }

  /** Same prefix, both numbered: the two may share a bracket. */
  predicate WithinRange(a: Range, b: Range) {
    PrefixCmp(a, b) == 0 && !a.single && !b.single
  }

  /** Same prefix and kind. */
  lemma {:induction false} SamePrefix(a: Range, b: Range)
    ensures PrefixCmp(a, b) == 0 <==> a.prefix == b.prefix && a.single == b.single
  {
    StrCmpAntisymmetric(a.prefix, b.prefix);
  }

  /** Neither a repeated host nor a joint: the two ranges must stay apart. */
  ghost predicate Apart(a: Range, b: Range) {
    a.prefix != b.prefix || a.single != b.single || (!a.single && (!Combine(a, b).0 || a.hi + 1 < b.lo))
  }

  /** Stretching a over an overlapping or adjacent b gives the union of their hosts. */
  lemma {:induction false} JoinedHosts(a: Range, b: Range)
    requires a.Ok() && b.Ok() && !a.single && b == a.(lo := b.lo, hi := b.hi) && a.lo <= b.lo <= a.hi + 1
    ensures var c := a.(hi := if a.hi < b.hi then b.hi else a.hi);
            && c.Ok() && First(c) == First(a)
            && (forall h :: h in HostsOf(c) <==> h in HostsOf(a) || h in HostsOf(b))
            && (b.lo == a.hi + 1 ==> HostsOf(c) == HostsOf(a) + HostsOf(b))
  {
    var c := a.(hi := if a.hi < b.hi then b.hi else a.hi);
    RunMembers(a.prefix, a.width, a.lo, a.hi);
    RunMembers(b.prefix, b.width, b.lo, b.hi);
    RunMembers(c.prefix, c.width, c.lo, c.hi);
    if b.lo == a.hi + 1 {
      RunConcat(a.prefix, a.width, a.lo, a.hi, b.hi);
    }
  }

  /** Two ranges that can be combined have become one, with both as parts. */
  ghost predicate Merged(a: Range, b: Range, a': Range) {
    && a.prefix == b.prefix && a.single == b.single && (a.single || Combine(a, b).0)
    && Part(a, a') && Part(b, a') && Last(a') == (if a.single || a.hi < b.hi then Last(b) else Last(a))
  }

  /** What joining b into a must achieve, given the number of hosts reported as shared (-1: kept apart). */
  ghost predicate Joined(a: Range, b: Range, duplicated: int, a': Range, b': Range) {
    && duplicated >= -1
    && a'.Ok() && Small(a') && First(a') == First(a)
    && Small(b') && SameHosts(b, b')
    && (duplicated == -1 ==> SameHosts(a, a') && Apart(a', b'))
    && (duplicated >= 0 ==>
          && Merged(a, b, a')
          && (forall h :: h in HostsOf(a') <==> h in HostsOf(a) || h in HostsOf(b))
          && |HostsOf(a')| == |HostsOf(a)| + |HostsOf(b)| - duplicated)
    && (duplicated == 0 ==> HostsOf(a') == HostsOf(a) + HostsOf(b))
  }

  /** a and b, both known under one width as a' and b', touch or overlap. */
  lemma {:induction false} Stretched(a: Range, b: Range, a': Range, b': Range)
    requires a.Ok() && b.Ok() && Small(a') && Small(b') && SameHosts(a, a') && SameHosts(b, b')
    requires !a.single && !b.single && a.prefix == b.prefix && a'.width == b'.width && a.lo <= b.lo <= a.hi + 1
    ensures Joined(a, b, if a.hi < b.hi then a.hi - b.lo + 1 else b.Count(),
                   a'.(hi := if a.hi < b.hi then b.hi else a.hi), b')
  {
    JoinedHosts(a', b');
  }

  lemma {:induction false} SamePair(a: Range, b: Range)
    requires a.Ok() && b.Ok() && Small(a) && Small(b) && a.single && b.single && a.prefix == b.prefix
    ensures Joined(a, b, 1, a, b)
  {}

  lemma {:induction false} KeptApart(a: Range, b: Range, a': Range, b': Range)
    requires a.Ok() && b.Ok() && Small(a') && Small(b') && SameHosts(a, a') && SameHosts(b, b') && Apart(a', b')
    ensures Joined(a, b, -1, a', b')
  {}

  /** Joins b into a, of the same prefix and kind, when they touch or overlap; the number goes through an int. */
  method Unite(a: Range, b: Range) returns (duplicated: int, a': Range, b': Range, ghost shared: int)
    requires a.Ok() && b.Ok() && Small(a) && Small(b) && Below(First(a), First(b))
    requires a.prefix == b.prefix && a.single == b.single
    ensures Joined(a, b, shared, a', b') && shared <= b.Count() && duplicated == Narrow(shared)
  {
    duplicated, shared := -1, -1;
    CombineKeepsHosts(a, b);
    var ok, wa, wb := CompareWidths(a.lo, a.width, b.lo, b.width);
    a', b' := a.(width := wa), b.(width := wb);
    if !ok {
      KeptApart(a, b, a', b');
    } else if a'.single && b'.single {
      SamePair(a, b);
      duplicated, shared := 1, 1;
    } else {
      LowsInOrder(a, b);
      duplicated, a', shared := Stretch(a, b, a', b');
    }
  }

  /** The numbered case, once both have one width. */
  method Stretch(ghost a: Range, ghost b: Range, a': Range, b': Range)
    returns (duplicated: int, a'': Range, ghost shared: int)
    requires a.Ok() && b.Ok() && Small(a') && Small(b') && SameHosts(a, a') && SameHosts(b, b')
    requires !a.single && !b.single && a.prefix == b.prefix && a'.width == b'.width && a.lo <= b.lo
    ensures Joined(a, b, shared, a'', b') && shared <= b.Count() && duplicated == Narrow(shared)
  {
    duplicated, a'', shared := -1, a', -1;
    if a'.hi == Pred(b'.lo) {
      Stretched(a, b, a', b');
      a'' := a'.(hi := b'.hi);
      duplicated, shared := 0, 0;
    } else if a'.hi >= b'.lo {
      Stretched(a, b, a', b');
      if a'.hi < b'.hi {
        duplicated, shared := Narrow(a'.hi - b'.lo + 1), a'.hi - b'.lo + 1;
        a'' := a'.(hi := b'.hi);
      } else {
        duplicated, shared := Narrow(b'.Count()), b'.Count();
      }
    } else {
      KeptApart(a, b, a', b');
    }
  }

  /**
   * Joins b into a when they touch or overlap.  It tells the number of hosts they shared, or -1 if they are apart, as
   * an int has it.
   */
  method Join(a: Range, b: Range) returns (duplicated: int, a': Range, b': Range, ghost shared: int)
    requires a.Ok() && b.Ok() && Small(a) && Small(b) && Below(First(a), First(b))
    ensures Joined(a, b, shared, a', b') && shared <= b.Count() && duplicated == Narrow(shared)
  {
    ComparatorIsHostOrder(a, b);
    var c;
    c, a', b' := Cmp(a, b);
    assert c <= 0;
    SamePrefix(a', b');
    if PrefixCmp(a', b') == 0 {
      duplicated, a', b', shared := Unite(a', b');
    } else {
      duplicated, shared := -1, -1;
      KeptApart(a, b, a', b');
    }
  }

  /** What a join tells is right exactly when the two share fewer than 2^31 hosts. */
  lemma {:induction false} JoinCounts(shared: int)
    requires shared >= -1
    ensures Narrow(shared) == shared <==> shared < 2147483648
  {
    if shared < INT_BOUND {
      NarrowSmall(shared);
    }
  }

  /** n[0-2147483647] with itself: all hosts are shared, and the number told is negative, as if the two were apart. */
  lemma {:induction false} JoinMiscounts()
    ensures var r := Range("n", 0, 0x7FFF_FFFF, 1, false);
            r.Ok() && Small(r) && Joined(r, r, r.Count(), r, r) && Narrow(r.Count()) < 0
  {
    var r := Range("n", 0, 0x7FFF_FFFF, 1, false);
    SameHostsItself(r);
    Stretched(r, r, r, r);
    assert r.(hi := r.hi) == r;
  }

  lemma {:induction false} SameHostsItself(r: Range)
    requires r.Ok()
    ensures SameHosts(r, r)
  {}

  /** Of two ranges in order that can be combined, the first begins no later. */
  lemma {:induction false} LowsInOrder(a: Range, b: Range)
    requires Below(First(a), First(b)) && a.prefix == b.prefix && !a.single && !b.single
    ensures Combine(a, b).0 ==> a.lo <= b.lo
  {
    StrCmpAntisymmetric(a.prefix, b.prefix);
    if b.lo < a.lo {
      DigitsMonotone(b.lo, a.lo);
    }
  }

  /**
   * The hosts two overlapping ranges share, as a new range; none when at most one number is shared.  When the source
   * asserts in vain that the first range is not the greater one, there is no answer.
   */
  method Intersect(a: Range, b: Range) returns (ok: bool, common: Option<Range>, a': Range, b': Range)
    requires a.Ok() && b.Ok() && Small(a) && Small(b)
    ensures SameHosts(a, a') && SameHosts(b, b') && Small(a') && Small(b')
    ensures ok <==> a.single || b.single || Below(First(a), First(b))
    ensures ok && common == None ==> !Shares(a', b')
    ensures common.Some? ==>
              && ok && a.prefix == b.prefix && !a.single && !b.single && a'.width == b'.width
              && a.lo <= b.lo < a.hi
              && common.value == Range(a.prefix, b.lo, if b.hi < a.hi then b.hi else a.hi, a'.width, false)
  {
    ok, common, a', b' := true, None, a, b;
    if a.single || b.single {
      return;
    }
    ComparatorIsHostOrder(a, b);
    var c;
    c, a', b' := Cmp(a, b);
    ok := c <= 0;
    if ok {
      if a'.prefix == b'.prefix {
        LowsInOrder(a', b');
      }
      common, a', b' := Common(a', b');
    }
  }

  /** Ranges that can be combined and share more than one number. */
  ghost predicate Shares(a: Range, b: Range) {
    a.prefix == b.prefix && !a.single && !b.single && a.hi > b.lo && Combine(a, b).0
  }

  /** Once the two are known to be in order. */
  method Common(a: Range, b: Range) returns (common: Option<Range>, a': Range, b': Range)
    requires a.Ok() && b.Ok() && Small(a) && Small(b) && !a.single && !b.single
    ensures SameHosts(a, a') && SameHosts(b, b') && Small(a') && Small(b')
    ensures common == None ==> !Shares(a', b')
    ensures common.Some? ==>
              && Shares(a, b) && a'.width == b'.width
              && common.value == Range(a.prefix, b.lo, if b.hi < a.hi then b.hi else a.hi, a'.width, false)
  {
    common, a', b' := None, a, b;
    SamePrefix(a, b);
    if PrefixCmp(a, b) == 0 && a.hi > b.lo {
      CombineKeepsHosts(a, b);
      var ok, wa, wb := CompareWidths(a.lo, a.width, b.lo, b.width);
      a', b' := a.(width := wa), b.(width := wb);
      if ok {
        common := Some(a'.(lo := b.lo, hi := if b.hi < a.hi then b.hi else a.hi));
      }
    }
  }
}
