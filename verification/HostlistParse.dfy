/** hostlist_create: cutting the text into tokens, reading bracketed ranges, pushing them. */
module HostlistParse {
  import opened Options
  import opened Decimal
  import opened Seqs
  import opened Hosts
  import opened Hostlists
  import opened HostlistOps
  import opened HostlistFind

  const MAX_RANGE: nat := 16384
  const MAX_RANGES: nat := 10240

  // ---- tokens ----

  predicate IsSep(c: char) { c == '\t' || c == ',' || c == ' ' }

  function SkipSeps(s: string, i: nat): (j: nat)
    requires i <= |s|
    ensures i <= j <= |s| && (j < |s| ==> !IsSep(s[j]))
    decreases |s| - i
  {
    if i < |s| && IsSep(s[i]) then SkipSeps(s, i + 1) else i
  }

  function LevelAfter(c: char, level: int): int {
    if c == '[' then level + 1 else if c == ']' then level - 1 else level
  }

  /** Where a token ends: the first separator outside brackets. */
  function TokenEnd(s: string, i: nat, level: int): (j: nat)
    requires i <= |s|
    ensures i <= j <= |s| && (level == 0 && i < |s| && !IsSep(s[i]) ==> i < j)
    decreases |s| - i
  {
    if i == |s| || (level == 0 && IsSep(s[i])) then i else TokenEnd(s, i + 1, LevelAfter(s[i], level))
  }

  /** The tokens of s from position i on. */
  function Tokens(s: string, i: nat): seq<string>
    requires i <= |s|
    decreases |s| - i
  {
    var b := SkipSeps(s, i);
    if b == |s| then [] else [s[b..TokenEnd(s, b, 0)]] + Tokens(s, TokenEnd(s, b, 0))
  }

  /** One token from the cursor on, and the cursor behind the separators that follow it. */
  method NextTok(s: string, pos: nat) returns (tok: Option<string>, pos': nat)
    requires pos <= |s|
    ensures pos <= pos' <= |s|
    ensures match tok
            case None => Tokens(s, pos) == [] && pos' == |s|
            case Some(t) => Tokens(s, pos) == [t] + Tokens(s, pos') && pos < pos'
  {
    pos' := pos;
    while pos' < |s| && IsSep(s[pos'])
      invariant pos <= pos' <= |s| && SkipSeps(s, pos') == SkipSeps(s, pos)
    {
      pos' := pos' + 1;
    }
    if pos' == |s| {
      return None, pos';
    }
    var start, level := pos', 0;
    while pos' < |s| && (level != 0 || !IsSep(s[pos']))
      invariant start <= pos' <= |s| && TokenEnd(s, pos', level) == TokenEnd(s, start, 0)
    {
      if s[pos'] == '[' {
        level := level + 1;
      } else if s[pos'] == ']' {
        level := level - 1;
      }
      pos' := pos' + 1;
    }
    ghost var end := pos';
    tok := Some(s[start..pos']);
    while pos' < |s| && IsSep(s[pos'])
      invariant end <= pos' <= |s| && SkipSeps(s, pos') == SkipSeps(s, end)
    {
      pos' := pos' + 1;
    }
    assert Tokens(s, pos') == Tokens(s, end);
  }

  // ---- numbers and ranges ----

  predicate IsSpace(c: char) { c == ' ' || 9 <= c as int <= 13 }

  function SkipSpace(s: string, i: nat, n: nat): (j: nat)
    requires i <= n <= |s|
    ensures i <= j <= n
    decreases n - i
  {
    if i < n && IsSpace(s[i]) then SkipSpace(s, i + 1, n) else i
  }

  function DigitsEnd(s: string, i: nat, n: nat): (j: nat)
    requires i <= n <= |s|
    ensures i <= j <= n
    decreases n - i
  {
    if i < n && IsDigit(s[i]) then DigitsEnd(s, i + 1, n) else i
  }

  function DigitOf(c: char): nat { if IsDigit(c) then c as int - '0' as int else 0 }

  /** The number written by the digits of s from i up to e. */
  function NumberAt(s: string, i: nat, e: nat): nat
    requires i <= e <= |s|
  {
    if e == i then 0 else 10 * NumberAt(s, i, e - 1) + DigitOf(s[e - 1])
  }

  /** strtoul in base ten on s[i..n]: the value, and where it stopped (at i when there is no number). */
  function Strtoul(s: string, i: nat, n: nat): (r: (ulong, nat))
    requires i <= n <= |s|
    ensures i <= r.1 <= n
  {
    var a := SkipSpace(s, i, n);
    var b := if a < n && (s[a] == '+' || s[a] == '-') then a + 1 else a;
    var e := DigitsEnd(s, b, n);
    if e == b then (0, i)
    else if NumberAt(s, b, e) >= ULONG_MOD then (ULONG_MOD - 1, e)
    else if s[a] == '-' && NumberAt(s, b, e) != 0 then (ULONG_MOD - NumberAt(s, b, e), e)
    else (NumberAt(s, b, e), e)
  }

  /** Position of the first c in s from i on, or |s|. */
  function IndexOf(s: string, c: char, i: nat): (j: nat)
    requires i <= |s|
    ensures i <= j <= |s| && (j < |s| ==> s[j] == c)
    decreases |s| - i
  {
    if i == |s| || s[i] == c then i else IndexOf(s, c, i + 1)
  }

  datatype Span = Span(lo: ulong, hi: ulong, width: nat)

  /** Too wide?  The host count is taken modulo 2^64, as the source takes it. */
  predicate TooMany(lo: ulong, hi: ulong) { (hi - lo + 1) % ULONG_MOD > MAX_RANGE }

  /** "n" or "n-m", or nothing.  Text after n is only looked at when no m follows. */
  function ParseSingle(s: string): (r: Option<Span>)
    ensures r.Some? ==> r.value.lo <= r.value.hi
  {
    var d, n := IndexOf(s, '-', 0), |s|;
    var (lo, used) := Strtoul(s, 0, d);
    if used == 0 || (d + 1 < n && s[d + 1] == '-') then None
    else if d + 1 >= n then (if used == d then Some(Span(lo, lo, d)) else None)
    else
      var (hi, end) := Strtoul(s, d + 1, n);
      if end == d + 1 || end != n || lo > hi || TooMany(lo, hi) then None else Some(Span(lo, hi, d))
  }

  /** The pieces between commas. */
  function Split(s: string): (ps: seq<string>)
    ensures ps != []
    decreases |s|
  {
    var p := IndexOf(s, ',', 0);
    if p == |s| then [s] else [s[..p]] + Split(s[p + 1..])
  }

  /** The results of f on the first n pieces, or nothing when one of them has none. */
  function Traverse(f: string -> Option<Span>, ps: seq<string>, n: nat): Option<seq<Span>>
    requires n <= |ps|
  {
    if n == 0 then Some([])
    else
      match Traverse(f, ps, n - 1)
      case None => None
      case Some(xs) => match f(ps[n - 1]) case None => None case Some(x) => Some(xs + [x])
  }

  /** Comma-separated ranges, at most max of them. */
  function ParseList(s: string, max: nat): Option<seq<Span>> {
    var ps := Split(s);
    if |ps| > max then None else Traverse(ParseSingle, ps, |ps|)
  }

  lemma {:induction false} TraverseFails(f: string -> Option<Span>, ps: seq<string>, m: nat, n: nat)
    requires m <= n <= |ps| && Traverse(f, ps, m) == None
    ensures Traverse(f, ps, n) == None
  {
    if m < n {
      TraverseFails(f, ps, m, n - 1);
    }
  }

  /** The piece up to the next comma, and the pieces behind it. */
  lemma {:induction false} NextPiece(ps: seq<string>, k: nat, s: string, p: nat)
    requires k < |ps| && ps[k..] == Split(s) && p == IndexOf(s, ',', 0)
    ensures ps[k] == s[..p]
    ensures if p == |s| then k + 1 == |ps| else k + 1 < |ps| && ps[k + 1..] == Split(s[p + 1..])
  {
    assert ps[k] == ps[k..][0] && ps[k + 1..] == ps[k..][1..];
  }

  method ParseRangeList(str: string, len: nat) returns (ranges: Option<seq<Span>>)
    ensures ranges == ParseList(str, len)
  {
    ghost var ps := Split(str);
    var count: nat, found: seq<Span>, s := 0, [], str;
    while true
      invariant count <= len && count < |ps| && ps[count..] == Split(s)
      invariant Traverse(ParseSingle, ps, count) == Some(found)
      decreases |s|
    {
      if count == len {
        return None;
      }
      var p := IndexOf(s, ',', 0);
      NextPiece(ps, count, s, p);
      var x := ParseSingle(s[..p]);
      count := count + 1;
      if x == None {
        TraverseFails(ParseSingle, ps, count, |ps|);
        return None;
      }
      found := found + [x.value];
      if p == |s| {
        return Some(found);
      }
      s := s[p + 1..];
    }
  }

  // ---- pushing ----

  /** Pushing the ranges of one bracket. */
  function PushSpans(rs: seq<Range>, prefix: string, xs: seq<Span>): seq<Range> {
    if xs == [] then rs
    else Push(PushSpans(rs, prefix, xs[..|xs| - 1]), SpanRange(prefix, xs[|xs| - 1]))
  }

  lemma {:induction false} PushSpansOn(rs: seq<Range>, prefix: string, xs: seq<Span>, i: nat)
    requires i < |xs|
    ensures PushSpans(rs, prefix, xs[..i + 1]) == Push(PushSpans(rs, prefix, xs[..i]), SpanRange(prefix, xs[i]))
  {
    assert xs[..i + 1][..i] == xs[..i];
  }

  function SpanRange(prefix: string, x: Span): Range { Range(prefix, x.lo, x.hi, x.width, false) }

  /** Pushing, as single hosts, the numbers n and up of a range with text before and after. */
  function PushSuffixed(rs: seq<Range>, prefix: string, suffix: string, x: Span, n: nat): seq<Range>
    requires x.lo <= n <= x.hi + 1
  {
    if n == x.lo then rs
    else
      Push(PushSuffixed(rs, prefix, suffix, x, n - 1),
           Range(prefix + Format(n - 1, x.width) + suffix, 0, 0, 0, true))
  }

  function PushAllSuffixed(rs: seq<Range>, prefix: string, suffix: string, xs: seq<Span>): seq<Range>
    requires forall k :: 0 <= k < |xs| ==> xs[k].lo <= xs[k].hi
  {
    if xs == [] then rs
    else
      var k := |xs| - 1;
      PushSuffixed(PushAllSuffixed(rs, prefix, suffix, xs[..k]), prefix, suffix, xs[k], xs[k].hi + 1)
  }

  /** The names of a range with text before and after: the numbers n and up, printed at its width. */
  function SuffixedNames(prefix: string, suffix: string, x: Span, n: nat): seq<string>
    requires x.lo <= n <= x.hi + 1
  {
    if n == x.lo then [] else SuffixedNames(prefix, suffix, x, n - 1) + [prefix + Format(n - 1, x.width) + suffix]
  }

  /** The names of all the ranges in the bracket, in order. */
  function AllSuffixedNames(prefix: string, suffix: string, xs: seq<Span>): seq<string>
    requires forall k :: 0 <= k < |xs| ==> xs[k].lo <= xs[k].hi
  {
    if xs == [] then []
    else
      var k := |xs| - 1;
      AllSuffixedNames(prefix, suffix, xs[..k]) + SuffixedNames(prefix, suffix, xs[k], xs[k].hi + 1)
  }

  /** Pushing one bare name. */
  lemma {:induction false} PushName(rs: seq<Range>, name: string)
    requires AllOk(rs)
    ensures var qs := Push(rs, Range(name, 0, 0, 0, true));
            AllOk(qs) && Names(Expand(qs)) == Names(Expand(rs)) + [name]
  {
    PushAppends(rs, Range(name, 0, 0, 0, true));
  }

  lemma {:induction false} SuffixedAdds(rs: seq<Range>, prefix: string, suffix: string, x: Span, n: nat)
    requires AllOk(rs) && x.lo <= n <= x.hi + 1
    ensures var qs := PushSuffixed(rs, prefix, suffix, x, n);
            AllOk(qs) && Names(Expand(qs)) == Names(Expand(rs)) + SuffixedNames(prefix, suffix, x, n)
  {
    if n > x.lo {
      var name := prefix + Format(n - 1, x.width) + suffix;
      SuffixedAdds(rs, prefix, suffix, x, n - 1);
      PushName(PushSuffixed(rs, prefix, suffix, x, n - 1), name);
      Assoc(Names(Expand(rs)), SuffixedNames(prefix, suffix, x, n - 1), [name]);
    }
  }

  /** A bracket with text behind it adds, in order, each of its numbers between the two texts. */
  lemma {:induction false} AllSuffixedAdds(rs: seq<Range>, prefix: string, suffix: string, xs: seq<Span>)
    requires AllOk(rs) && forall k :: 0 <= k < |xs| ==> xs[k].lo <= xs[k].hi
    ensures var qs := PushAllSuffixed(rs, prefix, suffix, xs);
            AllOk(qs) && Names(Expand(qs)) == Names(Expand(rs)) + AllSuffixedNames(prefix, suffix, xs)
  {
    if xs != [] {
      var k := |xs| - 1;
      AllSuffixedAdds(rs, prefix, suffix, xs[..k]);
      SuffixedAdds(PushAllSuffixed(rs, prefix, suffix, xs[..k]), prefix, suffix, xs[k], xs[k].hi + 1);
    }
  }

  /** The record for a bare token: its trailing number split off when small enough. */
  function HostRange(name: string): Range {
    var t := DigitTail(name);
    if t != "" && Searchable(name) then Range(name[..|name| - |t|], Value(t), Value(t), |t|, false)
    else Range(name, 0, 0, 0, true)
  }

  /** Beyond: a number reaches the largest unsigned long, which the record operations take for "empty". */
  datatype Outcome = Accepted(ranges: seq<Range>) | Rejected | Beyond

  predicate InBounds(xs: seq<Span>) { forall k :: 0 <= k < |xs| ==> xs[k].lo <= xs[k].hi < ULONG_MOD - 1 }

  /** The ranges after one more token. */
  function PushToken(rs: seq<Range>, tok: string): Outcome {
    var p := IndexOf(tok, '[', 0);
    if p < |tok| then
      var rest := tok[p + 1..];
      var q := IndexOf(rest, ']', 0);
      if q == |rest| then Rejected
      else
        match ParseList(rest[..q], MAX_RANGES)
        case None => Rejected
        case Some(xs) =>
          if !InBounds(xs) then Beyond
          else if q + 1 < |rest| then Accepted(PushAllSuffixed(rs, tok[..p], rest[q + 1..], xs))
          else Accepted(PushSpans(rs, tok[..p], xs))
    else if IndexOf(tok, ']', 0) < |tok| then Rejected
    else Accepted(Push(rs, HostRange(tok)))
  }

  function PushTokens(rs: seq<Range>, toks: seq<string>): Outcome
    decreases |toks|
  {
    if toks == [] then Accepted(rs)
    else
      match PushToken(rs, toks[0])
      case Accepted(qs) => PushTokens(qs, toks[1..])
      case o => o
  }

  /** What hostlist_create makes of a text. */
  function Parse(s: string): Outcome { PushTokens([], Tokens(s, 0)) }

  method PushOne(hl: Hostlist, r: Range)
    requires hl.Sound() && r.Ok()
    modifies hl, hl.hr
    ensures hl.Sound() && (hl.hr == old(hl.hr) || fresh(hl.hr))
    ensures hl.Ranges() == Push(old(hl.Ranges()), r)
    ensures hl.Contents() == old(hl.Contents()) + HostsOf(r)
  {
    PushAppends(hl.Ranges(), r);
    var n, r' := PushRange(hl, r);
  }

  /** hostlist_push_host. */
  method PushHost(hl: Hostlist, name: string)
    requires hl.Sound()
    modifies hl, hl.hr
    ensures hl.Sound() && (hl.hr == old(hl.hr) || fresh(hl.hr))
    ensures hl.Ranges() == Push(old(hl.Ranges()), HostRange(name))
  {
    var hn := CreateHostname(name);
    if hn.suffix.Some? {
      assert hn.hostname[..|name| - |hn.suffix.value|] == hn.prefix;
      PushOne(hl, Range(hn.prefix, hn.num, hn.num, |hn.suffix.value|, false));
    } else {
      PushOne(hl, Range(name, 0, 0, 0, true));
    }
  }

  method PushRangeList(hl: Hostlist, prefix: string, xs: seq<Span>)
    requires hl.Sound() && InBounds(xs)
    modifies hl, hl.hr
    ensures hl.Sound() && (hl.hr == old(hl.hr) || fresh(hl.hr))
    ensures hl.Ranges() == PushSpans(old(hl.Ranges()), prefix, xs)
  {
    var i := 0;
    while i < |xs|
      invariant 0 <= i <= |xs|
      invariant hl.Sound() && (hl.hr == old(hl.hr) || fresh(hl.hr))
      invariant hl.Ranges() == PushSpans(old(hl.Ranges()), prefix, xs[..i])
    {
      PushSpansOn(old(hl.Ranges()), prefix, xs, i);
      PushOne(hl, SpanRange(prefix, xs[i]));
      i := i + 1;
    }
    assert xs[..i] == xs;
  }

  method PushBareName(hl: Hostlist, name: string)
    requires hl.Sound()
    modifies hl, hl.hr
    ensures hl.Sound() && (hl.hr == old(hl.hr) || fresh(hl.hr))
    ensures hl.Ranges() == Push(old(hl.Ranges()), Range(name, 0, 0, 0, true))
  {
    PushOne(hl, Range(name, 0, 0, 0, true));
  }

  lemma {:induction false} SuffixedOn(rs: seq<Range>, prefix: string, suffix: string, x: Span, n: nat)
    requires x.lo <= n <= x.hi
    ensures PushSuffixed(rs, prefix, suffix, x, n + 1)
         == Push(PushSuffixed(rs, prefix, suffix, x, n), Range(prefix + Format(n, x.width) + suffix, 0, 0, 0, true))
  {}

  /** Pushes the bare names of one range in a bracket with text behind it. */
  method PushSuffixedRange(hl: Hostlist, prefix: string, suffix: string, x: Span)
    requires hl.Sound() && x.lo <= x.hi
    modifies hl, hl.hr
    ensures hl.Sound() && (hl.hr == old(hl.hr) || fresh(hl.hr))
    ensures hl.Ranges() == PushSuffixed(old(hl.Ranges()), prefix, suffix, x, x.hi + 1)
  {
    var j: nat := x.lo;
    ghost var rs := hl.Ranges();
    while j <= x.hi
      invariant x.lo <= j <= x.hi + 1
      invariant hl.Sound() && (hl.hr == old(hl.hr) || fresh(hl.hr))
      invariant hl.Ranges() == PushSuffixed(rs, prefix, suffix, x, j)
    {
      PushBareName(hl, prefix + Format(j, x.width) + suffix);
      SuffixedOn(rs, prefix, suffix, x, j);
      j := j + 1;
    }
  }

  /** Pushes the bare names of a bracket with text behind it. */
  method PushRangeListWithSuffix(hl: Hostlist, prefix: string, suffix: string, xs: seq<Span>)
    requires hl.Sound() && InBounds(xs)
    modifies hl, hl.hr
    ensures hl.Sound() && (hl.hr == old(hl.hr) || fresh(hl.hr))
    ensures hl.Ranges() == PushAllSuffixed(old(hl.Ranges()), prefix, suffix, xs)
    ensures Names(hl.Contents()) == Names(old(hl.Contents())) + AllSuffixedNames(prefix, suffix, xs)
  {
    ghost var rs := hl.Ranges();
    var i := 0;
    while i < |xs|
      invariant 0 <= i <= |xs|
      invariant hl.Sound() && (hl.hr == old(hl.hr) || fresh(hl.hr))
      invariant hl.Ranges() == PushAllSuffixed(old(hl.Ranges()), prefix, suffix, xs[..i])
    {
      assert xs[..i + 1][..i] == xs[..i];
      PushSuffixedRange(hl, prefix, suffix, xs[i]);
      i := i + 1;
    }
    assert xs[..i] == xs;
    AllSuffixedAdds(rs, prefix, suffix, xs);
  }

  method PushTokenText(hl: Hostlist, tok: string) returns (ok: bool)
    requires hl.Sound() && PushToken(hl.Ranges(), tok) != Beyond
    modifies hl, hl.hr
    ensures hl.Sound() && (hl.hr == old(hl.hr) || fresh(hl.hr))
    ensures PushToken(old(hl.Ranges()), tok) == if ok then Accepted(hl.Ranges()) else Rejected
  {
    var p := IndexOf(tok, '[', 0);
    if p < |tok| {
      var rest := tok[p + 1..];
      var q := IndexOf(rest, ']', 0);
      if q == |rest| {
        return false;
      }
      var xs := ParseRangeList(rest[..q], MAX_RANGES);
      if xs == None {
        return false;
      }
      if q + 1 < |rest| {
        PushRangeListWithSuffix(hl, tok[..p], rest[q + 1..], xs.value);
      } else {
        PushRangeList(hl, tok[..p], xs.value);
      }
    } else if IndexOf(tok, ']', 0) < |tok| {
      return false;
    } else {
      PushHost(hl, tok);
    }
    ok := true;
  }

  /** hostlist_create: a sound list of exactly the parsed ranges, or nothing when the text is malformed. */
  method Create(s: string) returns (list: Option<Hostlist>)
    requires Parse(s) != Beyond
    ensures list == None <==> Parse(s) == Rejected
    ensures list.Some? ==> list.value.Sound() && Parse(s) == Accepted(list.value.Ranges())
    ensures list.Some? ==> fresh(list.value) && fresh(list.value.hr)
  {
    var hl := new Hostlist();
    assert hl.Sound();
    var pos := 0;
    while true
      invariant pos <= |s| && fresh(hl) && fresh(hl.hr) && hl.Sound()
      invariant Parse(s) == PushTokens(hl.Ranges(), Tokens(s, pos))
      decreases |s| - pos
    {
      var tok, pos' := NextTok(s, pos);
      if tok == None {
        break;
      }
      assert Tokens(s, pos)[1..] == Tokens(s, pos');
      var ok := PushTokenText(hl, tok.value);
      if !ok {
        return None;
      }
      pos := pos';
    }
    list := Some(hl);
  }
}
