/** What texts hostlist_create accepts, and what each of them adds, said of the characters. */
module HostlistWords {
  import opened Options
  import opened Decimal
  import opened Hosts
  import opened Hostranges
  import opened HostlistOps
  import opened HostlistFind
  import opened HostlistSort
  import opened HostlistParse
  import opened HostlistTokens
  import opened HostlistRoundTrip

  // ---- separators ----

  /** Text without separators and brackets. */
  ghost predicate Word(t: string) {
    t != "" && forall k :: 0 <= k < |t| ==> t[k] !in {' ', ',', '\t', '[', ']'}
  }

  lemma {:induction false} WordIsToken(t: string)
    requires Word(t)
    ensures TokenLike(t) && Plain(t)
  {
    assert forall k :: 0 <= k < |t| ==> t[k] !in {' ', ',', '\t', '[', ']'};
    PlainTokenLike(t);
  }

  /** A blank, a comma or a tab ends a word, and is not part of the next. */
  lemma {:induction false} WordEnds(t: string, c: char, rest: string)
    requires Word(t) && (c == ' ' || c == ',' || c == '\t')
    ensures Tokens(t + [c] + rest, 0) == [t] + Tokens(rest, 0)
  {
    var s := t + [c] + rest;
    WordIsToken(t);
    assert s[0..0 + |t|] == t && s[|t|] == c;
    OneToken(s, 0, t);
    TokensFrom(s, |t| + 1, rest);
  }

  /** The tokens from a position on are those of the text from there on. */
  lemma {:induction false} TokensFrom(s: string, i: nat, rest: string)
    requires i <= |s| && s[i..] == rest
    ensures Tokens(s, i) == Tokens(rest, 0)
  {
    TokensShift(s, i, rest, 0);
  }

  lemma {:induction false} SkipShift(s: string, i: nat, rest: string, k: nat)
    requires i <= |s| && s[i..] == rest && k <= |rest|
    ensures SkipSeps(s, i + k) == i + SkipSeps(rest, k)
    decreases |rest| - k
  {
    if k < |rest| {
      assert rest[k] == s[i + k];
      SkipShift(s, i, rest, k + 1);
    }
  }

  lemma {:induction false} EndShift(s: string, i: nat, rest: string, k: nat, level: int)
    requires i <= |s| && s[i..] == rest && k <= |rest|
    ensures TokenEnd(s, i + k, level) == i + TokenEnd(rest, k, level)
    decreases |rest| - k
  {
    if k < |rest| {
      assert rest[k] == s[i + k];
      EndShift(s, i, rest, k + 1, LevelAfter(rest[k], level));
    }
  }

  /** The first token runs from b to e. */
  lemma {:induction false} TokensFirst(s: string, i: nat, b: nat, e: nat)
    requires i <= |s| && b == SkipSeps(s, i) < |s| && e == TokenEnd(s, b, 0)
    ensures e <= |s| && b < e && Tokens(s, i) == [s[b..e]] + Tokens(s, e)
  {}

  lemma {:induction false} SliceShift(s: string, i: nat, rest: string, b: nat, e: nat)
    requires i <= |s| && s[i..] == rest && b <= e <= |rest|
    ensures i + e <= |s| && s[i + b..i + e] == rest[b..e]
  {
    assert s[i..][b..e] == s[i + b..i + e];
  }

  lemma {:induction false} FirstShift(s: string, i: nat, rest: string, k: nat) returns (e: nat)
    requires i <= |s| && s[i..] == rest && k <= |rest| && SkipSeps(rest, k) < |rest|
    ensures k < e <= |rest| && exists t :: Tokens(rest, k) == [t] + Tokens(rest, e)
                                        && Tokens(s, i + k) == [t] + Tokens(s, i + e)
  {
    var b := SkipSeps(rest, k);
    e := TokenEnd(rest, b, 0);
    SkipShift(s, i, rest, k);
    EndShift(s, i, rest, b, 0);
    SliceShift(s, i, rest, b, e);
    TokensFirst(rest, k, b, e);
    TokensFirst(s, i + k, i + b, i + e);
  }

  lemma {:induction false} TokensShift(s: string, i: nat, rest: string, k: nat)
    requires i <= |s| && s[i..] == rest && k <= |rest|
    ensures Tokens(s, i + k) == Tokens(rest, k)
    decreases |rest| - k
  {
    if SkipSeps(rest, k) < |rest| {
      var e := FirstShift(s, i, rest, k);
      TokensShift(s, i, rest, e);
    } else {
      SkipShift(s, i, rest, k);
    }
  }

  /** Separators in front do not matter. */
  lemma {:induction false} SeparatorFirst(c: char, rest: string)
    requires c == ' ' || c == ',' || c == '\t'
    ensures Tokens([c] + rest, 0) == Tokens(rest, 0)
  {
    var s := [c] + rest;
    assert SkipSeps(s, 0) == SkipSeps(s, 1);
    assert Tokens(s, 0) == Tokens(s, 1);
    TokensFrom(s, 1, rest);
  }

  // ---- bare words ----

  /** A prefix that does not end with a digit, and digits. */
  ghost predicate Cuts(prefix: string, digits: string) {
    AllDigits(digits) && (prefix != "" ==> !('0' <= prefix[|prefix| - 1] <= '9'))
  }

  lemma {:induction false} CutTail(prefix: string, digits: string)
    requires Cuts(prefix, digits)
    ensures DigitTail(prefix + digits) == digits
  {
    var name := prefix + digits;
    assert name[|prefix|..] == digits;
    if name != "" {
      DigitTailIs(name, |prefix| - 1);
    }
  }

  /** A word is cut before its last digits, and becomes a numbered host when their value is at most 2^25. */
  lemma {:induction false} WordReads(prefix: string, digits: string)
    requires Cuts(prefix, digits)
    ensures HostRange(prefix + digits)
         == if digits != "" && Value(digits) <= 33554432
            then Range(prefix, Value(digits), Value(digits), |digits|, false)
            else Range(prefix + digits, 0, 0, 0, true)
  {
    CutTail(prefix, digits);
    assert (prefix + digits)[..|prefix|] == prefix;
  }

  /** A pushed range joins the last one exactly when the two could be one range. */
  lemma {:induction false} PushJoinsIff(rs: seq<Range>, r: Range)
    requires AllOk(rs) && r.Ok()
    ensures Push(rs, r) == rs + [r] <==> rs == [] || Gap(rs[|rs| - 1], r)
    ensures |Push(rs, r)| == |rs| + 1 <==> rs == [] || Gap(rs[|rs| - 1], r)
  {
    if rs != [] {
      SamePrefix(rs[|rs| - 1], r);
      if |Push(rs, r)| == |rs| {
        assert Push(rs, r) != rs + [r];
      }
    }
  }

  // ---- numbers in brackets ----

  /** What strtoul makes of a number that may be too large for it. */
  function Clamped(v: nat): ulong { if v <= 0xffff_ffff_ffff_ffff then v else 0xffff_ffff_ffff_ffff }

  lemma {:induction false} StrtoulReads(s: string, i: nat, n: nat)
    requires i < n <= |s| && AllDigits(s[i..n])
    ensures Strtoul(s, i, n) == (Clamped(Value(s[i..n])), n)
  {
    assert forall k :: i <= k < n ==> s[k] == s[i..n][k - i];
    assert IsDigit(s[i]);
    DigitsToEnd(s, i, n);
    NumberIsValue(s, i, n);
  }

  /** A number alone: its value and its length. */
  lemma {:induction false} NumberReads(a: string)
    requires AllDigits(a) && a != ""
    ensures ParseSingle(a) == Some(Span(Clamped(Value(a)), Clamped(Value(a)), |a|))
  {
    assert a[0..|a|] == a;
    StrtoulReads(a, 0, |a|);
    ParseOne(a, Clamped(Value(a)));
  }

  /**
   * Two numbers with a dash, as wide as the first: the first must not be the larger, and they must not span more than
   * 16384 numbers -- which all the 2^64 numbers together, counted modulo 2^64, do not.
   */
  lemma {:induction false} SpanReads(a: string, b: string)
    requires AllDigits(a) && a != "" && AllDigits(b) && b != ""
    ensures var lo, hi := Clamped(Value(a)), Clamped(Value(b));
            ParseSingle(a + "-" + b)
            == if lo <= hi && (hi - lo < 16384 || (lo == 0 && hi == 0xffff_ffff_ffff_ffff)) then Some(Span(lo, hi, |a|))
               else None
  {
    var s, lo, hi := a + "-" + b, Clamped(Value(a)), Clamped(Value(b));
    assert s[0..|a|] == a && s[..|a|] == a && s[|a| + 1..|s|] == b && s[|a| + 1] == b[0];
    StrtoulReads(s, 0, |a|);
    StrtoulReads(s, |a| + 1, |s|);
    ParseTwo(s, |a|, lo, hi);
    if lo <= hi {
      CountWraps(lo, hi);
    }
  }

  lemma {:induction false} CountWraps(lo: ulong, hi: ulong)
    requires lo <= hi
    ensures TooMany(lo, hi) <==> hi - lo >= 16384 && !(lo == 0 && hi == 0xffff_ffff_ffff_ffff)
  {}

  lemma {:induction false} Absent(t: string, c: char)
    requires c !in t
    ensures IndexOf(t, c, 0) == |t|
  {
    IndexSkips(t, c, 0, |t|);
  }

  /** A blank or a plus sign in front of a number changes nothing but the width. */
  lemma {:induction false} FrontSkipped(c: char, a: string)
    requires (c == ' ' || c == '+') && AllDigits(a) && a != ""
    ensures ParseSingle([c] + a) == Some(Span(Clamped(Value(a)), Clamped(Value(a)), |a| + 1))
  {
    var s, n := [c] + a, |a| + 1;
    assert s[1..n] == a && forall k :: 1 <= k < n ==> s[k] == a[k - 1];
    IndexSkips(s, '-', 0, n);
    assert IsDigit(s[1]) && SkipSpace(s, 1, n) == 1;
    DigitsToEnd(s, 1, n);
    NumberIsValue(s, 1, n);
  }

  /** Nothing else may be in front of a number, and there must be one. */
  lemma {:induction false} NoNumber(s: string)
    requires s == "" || !(IsDigit(s[0]) || IsSpace(s[0]) || s[0] == '+')
    ensures ParseSingle(s) == None
  {
    if s != "" && s[0] != '-' {
      var d := IndexOf(s, '-', 0);
      assert d > 0 && SkipSpace(s, 0, d) == 0 && DigitsEnd(s, 0, d) == 0;
    }
  }

  /** Nothing may be behind it. */
  lemma {:induction false} NothingBehind(a: string, c: char, rest: string)
    requires AllDigits(a) && a != "" && !IsDigit(c) && c != '-' && '-' !in rest
    ensures ParseSingle(a + [c] + rest) == None
  {
    var s, m := a + [c] + rest, |a|;
    assert forall k :: 0 <= k < m ==> s[k] == a[k];
    Absent(s, '-');
    assert IsDigit(s[0]) && SkipSpace(s, 0, |s|) == 0 && s[m] == c;
    DigitsStop(s, 0, m);
  }

  lemma {:induction false} DigitsStop(s: string, i: nat, m: nat)
    requires i <= m < |s| && !IsDigit(s[m]) && forall k :: i <= k < m ==> IsDigit(s[k])
    ensures DigitsEnd(s, i, |s|) == m
    decreases m - i
  {
    if i < m {
      DigitsStop(s, i + 1, m);
    }
  }

  // ---- malformed and suffixed tokens ----

  /** An opening bracket needs a closing one behind it. */
  lemma {:induction false} Unclosed(qs: seq<Range>, t: string, rest: string)
    requires '[' !in t && ']' !in rest
    ensures PushToken(qs, t + "[" + rest) == Rejected
  {
    var tok := t + "[" + rest;
    IndexSkips(tok, '[', 0, |t|);
    assert tok[|t| + 1..] == rest;
    Absent(rest, ']');
  }

  lemma {:induction false} IndexBound(s: string, i: nat, j: nat)
    requires i <= j < |s| && s[j] == ']'
    ensures IndexOf(s, ']', i) <= j
    decreases j - i
  {
    if s[i] != ']' {
      IndexBound(s, i + 1, j);
    }
  }

  /** A closing bracket needs an opening one. */
  lemma {:induction false} Unopened(qs: seq<Range>, t: string, rest: string)
    requires '[' !in t && '[' !in rest
    ensures PushToken(qs, t + "]" + rest) == Rejected
  {
    Absent(t + "]" + rest, '[');
    IndexBound(t + "]" + rest, 0, |t|);
  }

  /** Text behind a bracket. */
  lemma {:induction false} ReadsSuffix(qs: seq<Range>, prefix: string, inside: string, suffix: string)
    requires '[' !in prefix && ']' !in inside && suffix != ""
    ensures PushToken(qs, prefix + "[" + inside + "]" + suffix)
         == match ParseList(inside, 10240)
            case None => Rejected
            case Some(xs) =>
              if InBounds(xs) then Accepted(PushAllSuffixed(qs, prefix, suffix, xs)) else Beyond
  {
    var tok, p := prefix + "[" + inside + "]" + suffix, |prefix|;
    IndexSkips(tok, '[', 0, p);
    var rest := inside + "]" + suffix;
    assert tok[p + 1..] == rest && tok[..p] == prefix;
    IndexSkips(rest, ']', 0, |inside|);
    assert rest[..|inside|] == inside && rest[|inside| + 1..] == suffix;
  }

  /** Each name followed by the same text. */
  function Followed(ns: seq<string>, suffix: string): (fs: seq<string>)
    ensures |fs| == |ns| && forall k :: 0 <= k < |ns| ==> fs[k] == ns[k] + suffix
  {
    seq(|ns|, k requires 0 <= k < |ns| => ns[k] + suffix)
  }

  lemma {:induction false} SuffixedAt(prefix: string, suffix: string, x: Span, n: nat, k: nat)
    requires x.lo + k < n <= x.hi + 1
    ensures var ns := SuffixedNames(prefix, suffix, x, n);
            |ns| == n - x.lo && ns[k] == prefix + Format(x.lo + k, x.width) + suffix
    decreases n
  {
    if n > x.lo + 1 {
      SuffixedAt(prefix, suffix, x, n - 1, if k == n - 1 - x.lo then k - 1 else k);
    }
  }

  lemma {:induction false} SpanSuffixed(prefix: string, suffix: string, x: Span)
    requires x.lo <= x.hi < ULONG_MOD - 1
    ensures SuffixedNames(prefix, suffix, x, x.hi + 1) == Followed(Names(HostsOf(SpanRange(prefix, x))), suffix)
  {
    var r := SpanRange(prefix, x);
    SuffixedAt(prefix, suffix, x, x.hi + 1, 0);
    forall k | 0 <= k < r.Count()
      ensures SuffixedNames(prefix, suffix, x, x.hi + 1)[k] == Names(HostsOf(r))[k] + suffix
    {
      SuffixedAt(prefix, suffix, x, x.hi + 1, k);
      ShownInRange(r, k);
    }
  }

  lemma {:induction false} NamesFollowed(a: seq<Host>, b: seq<Host>, suffix: string)
    ensures Followed(Names(a + b), suffix) == Followed(Names(a), suffix) + Followed(Names(b), suffix)
  {}

  lemma {:induction false} PushFollowed(front: seq<Range>, r: Range, ns: seq<string>, ms: seq<string>, suffix: string)
    requires AllOk(front) && r.Ok()
    requires ns == Followed(Names(Expand(front)), suffix) && ms == Followed(Names(HostsOf(r)), suffix)
    ensures AllOk(Push(front, r)) && ns + ms == Followed(Names(Expand(Push(front, r))), suffix)
  {
    PushAppends(front, r);
    NamesFollowed(Expand(front), HostsOf(r), suffix);
  }

  /** The names of "prefix[inside]suffix" are those of "prefix[inside]", each followed by the suffix. */
  lemma {:induction false} SuffixFollows(prefix: string, suffix: string, xs: seq<Span>)
    requires InBounds(xs)
    ensures AllOk(PushSpans([], prefix, xs))
    ensures AllSuffixedNames(prefix, suffix, xs) == Followed(Names(Expand(PushSpans([], prefix, xs))), suffix)
  {
    if xs != [] {
      var k := |xs| - 1;
      var front, r := PushSpans([], prefix, xs[..k]), SpanRange(prefix, xs[k]);
      SuffixFollows(prefix, suffix, xs[..k]);
      SpanSuffixed(prefix, suffix, xs[k]);
      PushFollowed(front, r, AllSuffixedNames(prefix, suffix, xs[..k]),
                   SuffixedNames(prefix, suffix, xs[k], xs[k].hi + 1), suffix);
    }
  }
}
