/** What hostlist_ranged_string prints, hostlist_create reads back as the same names. */
module HostlistRoundTrip {
  import opened Options
  import opened Decimal
  import opened Seqs
  import opened Hosts
  import opened Hostranges
  import opened HostlistOps
  import opened HostlistParse
  import opened HostlistPrint
  import opened HostlistTokens

  // ---- numbers ----

  lemma {:induction false} NumberIsValue(s: string, i: nat, e: nat)
    requires i <= e <= |s| && AllDigits(s[i..e])
    ensures NumberAt(s, i, e) == Value(s[i..e])
  {
    if e > i {
      assert s[i..e][..e - i - 1] == s[i..e - 1] && s[i..e][e - i - 1] == s[e - 1];
      NumberIsValue(s, i, e - 1);
    }
  }

  lemma {:induction false} DigitsToEnd(s: string, i: nat, n: nat)
    requires i <= n <= |s| && forall k :: i <= k < n ==> IsDigit(s[k])
    ensures DigitsEnd(s, i, n) == n
    decreases n - i
  {
    if i < n {
      DigitsToEnd(s, i + 1, n);
    }
  }

  /** A printed number standing at s[i..n] is read in full. */
  lemma {:induction false} StrtoulOfFormat(s: string, i: nat, n: nat, x: ulong, w: nat)
    requires i <= n <= |s| && s[i..n] == Format(x, w)
    ensures Strtoul(s, i, n) == (x, n)
  {
    assert forall k :: i <= k < n ==> s[k] == s[i..n][k - i];
    assert IsDigit(s[i]);
    DigitsToEnd(s, i, n);
    NumberIsValue(s, i, n);
    ValueOfFormat(x, w);
  }

  lemma {:induction false} IndexSkips(s: string, c: char, i: nat, j: nat)
    requires i <= j <= |s| && forall k :: i <= k < j ==> s[k] != c
    ensures IndexOf(s, c, i) == IndexOf(s, c, j)
    decreases j - i
  {
    if i < j {
      IndexSkips(s, c, i + 1, j);
    }
  }

  function SpanOf(r: Range): Span { Span(r.lo, r.hi, Printed(r.lo, r.width)) }

  lemma {:induction false} ParseOne(a: string, n: ulong)
    requires a != "" && AllDigits(a) && Strtoul(a, 0, |a|) == (n, |a|)
    ensures ParseSingle(a) == Some(Span(n, n, |a|))
  {
    IndexSkips(a, '-', 0, |a|);
  }

  lemma {:induction false} ParseTwo(s: string, d: nat, n: ulong, m: ulong)
    requires 0 < d < |s| - 1 && AllDigits(s[..d]) && s[d] == '-' && IsDigit(s[d + 1])
    requires Strtoul(s, 0, d) == (n, d) && Strtoul(s, d + 1, |s|) == (m, |s|)
    ensures ParseSingle(s) == if n > m || TooMany(n, m) then None else Some(Span(n, m, d))
  {
    assert forall k :: 0 <= k < d ==> s[k] == s[..d][k];
    IndexSkips(s, '-', 0, d);
  }

  lemma {:induction false} ParseDash(a: string, b: string, lo: ulong, hi: ulong, w: nat)
    requires a == Format(lo, w) && b == Format(hi, w) && lo <= hi
    ensures ParseSingle(a + ("-" + b)) == if TooMany(lo, hi) then None else Some(Span(lo, hi, |a|))
  {
    var s := a + ("-" + b);
    assert s[0..|a|] == a && s[|a| + 1..|s|] == b && s[..|a|] == a && s[|a| + 1] == b[0];
    StrtoulOfFormat(s, 0, |a|, lo, w);
    StrtoulOfFormat(s, |a| + 1, |s|, hi, w);
    ParseTwo(s, |a|, lo, hi);
  }

  /** The numbers of a range read back as that range, unless it is too large. */
  lemma {:induction false} ParseNum(r: Range)
    requires r.Ok() && !r.single
    ensures ParseSingle(Num(r)) == if r.Count() <= 16384 then Some(SpanOf(r)) else None
  {
    var a := Format(r.lo, r.width);
    if r.lo < r.hi {
      ParseDash(a, Format(r.hi, r.width), r.lo, r.hi, r.width);
    } else {
      assert Num(r) == a + "" == a && a[0..|a|] == a;
      StrtoulOfFormat(a, 0, |a|, r.lo, r.width);
      ParseOne(a, r.lo);
    }
  }

  // ---- the inside of a bracket ----

  lemma {:induction false} NumChars(r: Range)
    ensures forall k :: 0 <= k < |Num(r)| ==> IsDigit(Num(r)[k]) || Num(r)[k] == '-'
  {}

  function Spans(rs: seq<Range>, i: nat, j: nat): (xs: seq<Span>)
    requires i <= j <= |rs|
    ensures |xs| == j - i && forall k :: 0 <= k < j - i ==> xs[k] == SpanOf(rs[i + k])
  {
    seq(j - i, k requires 0 <= k < j - i => SpanOf(rs[i + k]))
  }

  /** Do ranges i to j - 1 fit the parser's limits? */
  predicate Fits(rs: seq<Range>, i: nat, j: nat, max: nat)
    requires i <= j <= |rs|
  {
    j - i <= max && forall k :: i <= k < j ==> rs[k].Count() <= 16384
  }

  lemma {:induction false} SplitOne(a: string)
    requires forall k :: 0 <= k < |a| ==> a[k] != ','
    ensures Split(a) == [a]
  {
    IndexSkips(a, ',', 0, |a|);
  }

  lemma {:induction false} SplitFront(a: string, rest: string)
    requires forall k :: 0 <= k < |a| ==> a[k] != ','
    ensures Split(a + "," + rest) == [a] + Split(rest)
  {
    var s := a + "," + rest;
    IndexSkips(s, ',', 0, |a|);
    assert s[..|a|] == a && s[|a| + 1..] == rest;
  }

  lemma {:induction false} FirstComma(s: string, i: nat)
    requires i <= |s|
    ensures forall k :: i <= k < IndexOf(s, ',', i) ==> s[k] != ','
    decreases |s| - i
  {
    if i < |s| && s[i] != ',' {
      FirstComma(s, i + 1);
    }
  }

  /** Splitting at a comma splits both sides. */
  lemma {:induction false} SplitConcat(a: string, b: string)
    ensures Split(a + "," + b) == Split(a) + Split(b)
    decreases |a|
  {
    var p := IndexOf(a, ',', 0);
    FirstComma(a, 0);
    if p == |a| {
      SplitOne(a);
      SplitFront(a, b);
    } else {
      var x, y := a[..p], a[p + 1..];
      SplitFront(x, y + "," + b);
      SplitConcat(y, b);
      assert a + "," + b == x + "," + (y + "," + b);
      Assoc([x], Split(y), Split(b));
    }
  }

  /** The texts between the commas of Nums. */
  function Pieces(rs: seq<Range>, i: nat, j: nat): (ps: seq<string>)
    requires i < j <= |rs|
    ensures |ps| == j - i
  {
    if j == i + 1 then [Num(rs[i])] else Pieces(rs, i, j - 1) + [Num(rs[j - 1])]
  }

  lemma {:induction false} SplitNums(rs: seq<Range>, i: nat, j: nat)
    requires i < j <= |rs|
    ensures Split(Nums(rs, i, j)) == Pieces(rs, i, j)
  {
    NumChars(rs[j - 1]);
    SplitOne(Num(rs[j - 1]));
    if j > i + 1 {
      SplitConcat(Nums(rs, i, j - 1), Num(rs[j - 1]));
      SplitNums(rs, i, j - 1);
    }
  }

  lemma {:induction false} TraverseLocal(f: string -> Option<Span>, ps: seq<string>, qs: seq<string>, n: nat)
    requires n <= |ps| && n <= |qs| && ps[..n] == qs[..n]
    ensures Traverse(f, ps, n) == Traverse(f, qs, n)
  {
    if n > 0 {
      assert ps[n - 1] == ps[..n][n - 1] == qs[..n][n - 1] == qs[n - 1];
      assert ps[..n - 1] == ps[..n][..n - 1] == qs[..n][..n - 1] == qs[..n - 1];
      TraverseLocal(f, ps, qs, n - 1);
    }
  }

  lemma {:induction false} FitsMore(rs: seq<Range>, i: nat, j: nat)
    requires i < j <= |rs|
    ensures Fits(rs, i, j, j - i) <==> rs[j - 1].Count() <= MAX_RANGE && Fits(rs, i, j - 1, j - 1 - i)
    ensures Spans(rs, i, j) == Spans(rs, i, j - 1) + [SpanOf(rs[j - 1])]
  {}

  /** Does f read the numbers of every range back, within the size limit? */
  ghost predicate ReadsNumbers(f: string -> Option<Span>) {
    forall r: Range :: r.Ok() && !r.single ==> f(Num(r)) == if r.Count() <= 16384 then Some(SpanOf(r)) else None
  }

  lemma {:induction false} TraverseSpans(f: string -> Option<Span>, rs: seq<Range>, i: nat, j: nat)
    requires ReadsNumbers(f) && i < j <= |rs| && forall k :: i <= k < j ==> rs[k].Ok() && !rs[k].single
    ensures Traverse(f, Pieces(rs, i, j), j - i) == if Fits(rs, i, j, j - i) then Some(Spans(rs, i, j)) else None
  {
    FitsMore(rs, i, j);
    if j > i + 1 {
      TraverseSpans(f, rs, i, j - 1);
      TraverseLocal(f, Pieces(rs, i, j), Pieces(rs, i, j - 1), j - 1 - i);
    }
  }

  lemma {:induction false} SinglesRead()
    ensures ReadsNumbers(ParseSingle)
  {
    forall r: Range | r.Ok() && !r.single
      ensures ParseSingle(Num(r)) == if r.Count() <= 16384 then Some(SpanOf(r)) else None
    {
      ParseNum(r);
    }
  }

  /** Reading a list of pieces with f. */
  lemma {:induction false} ListWith(f: string -> Option<Span>, rs: seq<Range>, i: nat, j: nat, max: nat)
    requires ReadsNumbers(f) && i < j <= |rs| && forall k :: i <= k < j ==> rs[k].Ok() && !rs[k].single
    ensures var ps := Split(Nums(rs, i, j));
            (if |ps| > max then None else Traverse(f, ps, |ps|))
            == if Fits(rs, i, j, max) then Some(Spans(rs, i, j)) else None
  {
    SplitNums(rs, i, j);
    TraverseSpans(f, rs, i, j);
  }

  /** A bracket's contents read back as its ranges exactly when they fit the parser's limits. */
  lemma {:induction false} ParseNums(rs: seq<Range>, i: nat, j: nat, max: nat)
    requires i < j <= |rs| && forall k :: i <= k < j ==> rs[k].Ok() && !rs[k].single
    ensures ParseList(Nums(rs, i, j), max) == if Fits(rs, i, j, max) then Some(Spans(rs, i, j)) else None
  {
    SinglesRead();
    ListWith(ParseSingle, rs, i, j, max);
  }

  // ---- one group ----

  predicate Bare(s: string) { forall k :: 0 <= k < |s| ==> s[k] != '[' && s[k] != ']' }

  lemma {:induction false} BareJoined(a: string, b: string)
    requires Bare(a) && Bare(b)
    ensures Bare(a + "," + b)
  {}

  lemma {:induction false} NumBare(r: Range)
    ensures Bare(Num(r))
  {
    NumChars(r);
  }

  lemma {:induction false} NumsBare(rs: seq<Range>, i: nat, j: nat)
    requires i < j <= |rs|
    ensures Bare(Nums(rs, i, j))
  {
    NumBare(rs[j - 1]);
    if j > i + 1 {
      NumsBare(rs, i, j - 1);
      BareJoined(Nums(rs, i, j - 1), Num(rs[j - 1]));
    }
  }

  /** Lists whose names can be told apart in a text. */
  ghost predicate Printable(rs: seq<Range>) {
    AllOk(rs) && forall k :: 0 <= k < |rs| ==> Plain(rs[k].prefix) && (rs[k].single ==> rs[k].prefix != "")
  }

  /** The members of a bracket are numbered ranges of one prefix. */
  lemma {:induction false} GroupMembers(rs: seq<Range>, i: nat, j: nat)
    requires i < j <= |rs| && !rs[i].single
    requires forall k :: i < k < j ==> WithinRange(rs[k], rs[k - 1])
    ensures forall k :: i <= k < j ==> !rs[k].single && rs[k].prefix == rs[i].prefix
  {
    if j > i + 1 {
      GroupMembers(rs, i, j - 1);
      SamePrefix(rs[j - 1], rs[j - 2]);
    }
  }

  lemma {:induction false} GroupChain(rs: seq<Range>, j: nat)
    requires 0 < j <= |rs|
    ensures forall k :: j <= k < GroupEnd(rs, j) ==> WithinRange(rs[k], rs[k - 1])
    decreases |rs| - j
  {
    if j < |rs| && WithinRange(rs[j], rs[j - 1]) {
      GroupChain(rs, j + 1);
    }
  }

  lemma {:induction false} BracketMembers(rs: seq<Range>, i: nat)
    requires AllOk(rs) && i < |rs| && BracketNeeded(rs, i)
    ensures forall k :: i <= k < GroupEnd(rs, i + 1) ==> !rs[k].single && rs[k].prefix == rs[i].prefix
  {
    GroupChain(rs, i + 1);
    GroupMembers(rs, i, GroupEnd(rs, i + 1));
  }

  /** A printed group comes back as one token. */
  lemma {:induction false} GroupIsToken(rs: seq<Range>, i: nat)
    requires Printable(rs) && i < |rs|
    ensures TokenLike(GroupText(rs, i))
  {
    GroupTextIs(rs, i);
    if BracketNeeded(rs, i) {
      var e := GroupEnd(rs, i + 1);
      NumsBare(rs, i, e);
      BracketTokenLike(rs[i].prefix, Nums(rs, i, e));
    } else {
      NumChars(rs[i]);
      PlainTokenLike(GroupText(rs, i));
    }
  }

  /** Where the brackets of "prefix[inside]" are. */
  lemma {:induction false} BracketShape(prefix: string, inside: string)
    requires Plain(prefix) && Bare(inside)
    ensures var tok, p := prefix + "[" + inside + "]", |prefix|;
            && IndexOf(tok, '[', 0) == p < |tok| && tok[..p] == prefix && tok[p + 1..] == inside + "]"
  {
    var tok := prefix + "[" + inside + "]";
    IndexSkips(tok, '[', 0, |prefix|);
  }

  lemma {:induction false} BracketEnd(inside: string)
    requires Bare(inside)
    ensures IndexOf(inside + "]", ']', 0) == |inside| && (inside + "]")[..|inside|] == inside
  {
    IndexSkips(inside + "]", ']', 0, |inside|);
  }

  /** Reading "prefix[inside]". */
  lemma {:induction false} PushBracketText(qs: seq<Range>, prefix: string, inside: string, o: Option<seq<Span>>)
    requires Plain(prefix) && Bare(inside) && ParseList(inside, MAX_RANGES) == o
    requires o.Some? ==> InBounds(o.value)
    ensures PushToken(qs, prefix + "[" + inside + "]")
         == if o == None then Rejected else Accepted(PushSpans(qs, prefix, o.value))
  {
    BracketShape(prefix, inside);
    BracketEnd(inside);
  }

  lemma {:induction false} PushBareText(qs: seq<Range>, tok: string)
    requires Plain(tok)
    ensures PushToken(qs, tok) == Accepted(Push(qs, HostRange(tok)))
  {
    IndexSkips(tok, '[', 0, |tok|);
    IndexSkips(tok, ']', 0, |tok|);
  }
}
