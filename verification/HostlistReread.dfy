/** Printing and then parsing a whole list. */
module HostlistReread {
  import opened Options
  import opened Decimal
  import opened Hosts
  import opened HostlistOps
  import opened HostlistFind
  import opened HostlistParse
  import opened HostlistPrint
  import opened HostlistTokens
  import opened HostlistRoundTrip

  // ---- the names a group brings back ----

  lemma {:induction false} NamesConcat(a: seq<Host>, b: seq<Host>)
    ensures Names(a + b) == Names(a) + Names(b)
  {}

  lemma {:induction false} SpanHosts(r: Range)
    requires r.Ok() && !r.single
    ensures SpanRange(r.prefix, SpanOf(r)).Ok() && HostsOf(SpanRange(r.prefix, SpanOf(r))) == HostsOf(r)
  {
    RewidthKeepsHosts(r, Printed(r.lo, r.width));
  }

  /** The ranges qs bring back the names of the first n ranges of rs. */
  ghost predicate Brought(qs: seq<Range>, rs: seq<Range>, n: nat)
    requires n <= |rs|
  {
    AllOk(qs) && Names(Expand(qs)) == Names(ExpandTo(rs, n))
  }

  /** Pushing a range with the names of range n brings back one more range. */
  lemma {:induction false} BringOne(qs: seq<Range>, r: Range, rs: seq<Range>, n: nat)
    requires n < |rs| && Brought(qs, rs, n) && r.Ok() && Names(HostsOf(r)) == Names(HostsOf(rs[n]))
    ensures Brought(Push(qs, r), rs, n + 1)
  {
    PushAppends(qs, r);
    NamesConcat(Expand(qs), HostsOf(r));
    NamesConcat(ExpandTo(rs, n), HostsOf(rs[n]));
  }

  /** Pushing one more range of a bracket. */
  lemma {:induction false} BringSpan(qs: seq<Range>, xs: seq<Span>, rs: seq<Range>, n: nat, prefix: string)
    requires n < |rs| && Brought(PushSpans(qs, prefix, xs), rs, n)
    requires rs[n].Ok() && !rs[n].single && rs[n].prefix == prefix
    ensures Brought(PushSpans(qs, prefix, xs + [SpanOf(rs[n])]), rs, n + 1)
  {
    SpanHosts(rs[n]);
    PushLastSpan(qs, prefix, xs, SpanOf(rs[n]));
    BringOne(PushSpans(qs, prefix, xs), SpanRange(prefix, SpanOf(rs[n])), rs, n);
  }

  /** Is range k a numbered one with this prefix? */
  ghost predicate Belongs(rs: seq<Range>, k: int, prefix: string) {
    0 <= k < |rs| && rs[k].Ok() && !rs[k].single && rs[k].prefix == prefix
  }

  lemma {:induction false} BringNext(qs: seq<Range>, rs: seq<Range>, i: nat, j: nat, prefix: string)
    requires i <= j < |rs| && Belongs(rs, j, prefix)
    requires Brought(PushSpans(qs, prefix, Spans(rs, i, j)), rs, j)
    ensures Brought(PushSpans(qs, prefix, Spans(rs, i, j + 1)), rs, j + 1)
  {
    MoreSpans(rs, i, j);
    BringSpan(qs, Spans(rs, i, j), rs, j, prefix);
  }

  lemma {:induction false} NoSpans(qs: seq<Range>, rs: seq<Range>, i: nat, prefix: string)
    requires i <= |rs|
    ensures PushSpans(qs, prefix, Spans(rs, i, i)) == qs
  {
    assert Spans(rs, i, i) == [];
  }

  /** Pushing the ranges of a bracket brings back all of them. */
  lemma {:induction false} BringSpans(qs: seq<Range>, rs: seq<Range>, i: nat, j: nat, prefix: string)
    requires i <= j <= |rs| && Brought(qs, rs, i) && forall k :: i <= k < j ==> Belongs(rs, k, prefix)
    ensures Brought(PushSpans(qs, prefix, Spans(rs, i, j)), rs, j)
  {
    var p := (k: int) => i <= k <= j && Brought(PushSpans(qs, prefix, Spans(rs, i, k)), rs, k);
    NoSpans(qs, rs, i, prefix);
    forall k | i <= k < j && p(k)
      ensures p(k + 1)
    {
      BringNext(qs, rs, i, k, prefix);
    }
    Climb(p, i, j);
  }

  lemma {:induction false} Climb(p: int -> bool, i: int, j: int)
    requires i <= j && p(i) && forall k :: i <= k < j && p(k) ==> p(k + 1)
    ensures p(j)
    decreases j - i
  {
    if i < j {
      assert p(i + 1);
      Climb(p, i + 1, j);
    }
  }

  lemma {:induction false} MoreSpans(rs: seq<Range>, i: nat, j: nat)
    requires i <= j < |rs|
    ensures Spans(rs, i, j + 1) == Spans(rs, i, j) + [SpanOf(rs[j])]
  {}

  lemma {:induction false} PushLastSpan(qs: seq<Range>, prefix: string, xs: seq<Span>, x: Span)
    ensures PushSpans(qs, prefix, xs + [x]) == Push(PushSpans(qs, prefix, xs), SpanRange(prefix, x))
  {
    assert (xs + [x])[..|xs|] == xs;
  }

  /** The record for a bare name stands for just that name. */
  lemma {:induction false} HostRangeName(name: string)
    ensures HostRange(name).Ok() && Names(HostsOf(HostRange(name))) == [name]
  {
    var t := DigitTail(name);
    var r := HostRange(name);
    if !r.single {
      FormatOfValue(t, |t|);
      assert HostsOf(r) == [Numbered(r.prefix, r.lo, Printed(r.lo, |t|))];
      assert name == name[..|name| - |t|] + t;
    }
  }

  /** Is group i within the parser's limits?  Only brackets have limits. */
  predicate GroupFits(rs: seq<Range>, i: nat)
    requires i < |rs|
  {
    BracketNeeded(rs, i) ==> Fits(rs, i, GroupEnd(rs, i + 1), 10240)
  }

  /** Is every group from range i on within the limits? */
  predicate AllFit(rs: seq<Range>, i: nat)
    requires i <= |rs|
    decreases |rs| - i
  {
    i == |rs| || (GroupFits(rs, i) && AllFit(rs, GroupEnd(rs, i + 1)))
  }

  lemma {:induction false} SpansInBounds(rs: seq<Range>, i: nat, j: nat)
    requires i <= j <= |rs| && forall k :: i <= k < j ==> rs[k].Ok() && !rs[k].single
    ensures InBounds(Spans(rs, i, j))
  {}

  /** The text of a bracket reads as its ranges, or not at all. */
  lemma {:induction false} ReadBracket(qs: seq<Range>, rs: seq<Range>, i: nat)
    requires Printable(rs) && i < |rs| && BracketNeeded(rs, i)
    ensures PushToken(qs, GroupText(rs, i))
         == if GroupFits(rs, i) then Accepted(PushSpans(qs, rs[i].prefix, Spans(rs, i, GroupEnd(rs, i + 1))))
            else Rejected
  {
    var e := GroupEnd(rs, i + 1);
    GroupTextIs(rs, i);
    BracketMembers(rs, i);
    NumsBare(rs, i, e);
    ParseNums(rs, i, e, MAX_RANGES);
    SpansInBounds(rs, i, e);
    PushBracketText(qs, rs[i].prefix, Nums(rs, i, e), if GroupFits(rs, i) then Some(Spans(rs, i, e)) else None);
  }

  lemma {:induction false} BareName(rs: seq<Range>, i: nat)
    requires Printable(rs) && i < |rs| && !BracketNeeded(rs, i)
    ensures Plain(GroupText(rs, i)) && GroupEnd(rs, i + 1) == i + 1
    ensures Names(HostsOf(rs[i])) == [GroupText(rs, i)]
  {
    GroupTextIs(rs, i);
    NumChars(rs[i]);
    OneHost(rs[i]);
    assert rs[i].Count() == 1;
    assert Name(First(rs[i])) == rs[i].prefix + Num(rs[i]) by {
      if !rs[i].single {
        var f := Format(rs[i].lo, rs[i].width);
        assert Num(rs[i]) == f + "" == f;
      } else {
        assert rs[i].prefix + "" == rs[i].prefix;
      }
    }
  }

  /** Reading the text of group i brings back its names, unless a bracket is beyond the limits. */
  lemma {:induction false} ReadGroup(qs: seq<Range>, rs: seq<Range>, i: nat)
    requires Printable(rs) && i < |rs| && Brought(qs, rs, i)
    ensures var o := PushToken(qs, GroupText(rs, i));
            if GroupFits(rs, i) then o.Accepted? && Brought(o.ranges, rs, GroupEnd(rs, i + 1)) else o == Rejected
  {
    if BracketNeeded(rs, i) {
      ReadBracket(qs, rs, i);
      BracketMembers(rs, i);
      assert forall k :: i <= k < GroupEnd(rs, i + 1) ==> Belongs(rs, k, rs[i].prefix);
      BringSpans(qs, rs, i, GroupEnd(rs, i + 1), rs[i].prefix);
    } else {
      BareName(rs, i);
      PushBareText(qs, GroupText(rs, i));
      HostRangeName(GroupText(rs, i));
      BringOne(qs, HostRange(GroupText(rs, i)), rs, i);
    }
  }

  /** Reading one printed group after another. */
  function GroupTexts(rs: seq<Range>, i: nat): (ts: seq<string>)
    requires i <= |rs|
    ensures i < |rs| ==> ts != []
    decreases |rs| - i
  {
    if i == |rs| then [] else [GroupText(rs, i)] + GroupTexts(rs, GroupEnd(rs, i + 1))
  }

  lemma {:induction false} ReadGroups(qs: seq<Range>, rs: seq<Range>, i: nat)
    requires Printable(rs) && i <= |rs| && Brought(qs, rs, i)
    ensures var o := PushTokens(qs, GroupTexts(rs, i));
            if AllFit(rs, i) then o.Accepted? && Brought(o.ranges, rs, |rs|) else o == Rejected
    decreases |rs| - i
  {
    if i < |rs| {
      var e := GroupEnd(rs, i + 1);
      ReadGroup(qs, rs, i);
      assert GroupTexts(rs, i)[1..] == GroupTexts(rs, e);
      if GroupFits(rs, i) {
        ReadGroups(PushToken(qs, GroupText(rs, i)).ranges, rs, e);
      }
    }
  }

  // ---- the text is those groups, joined by commas ----

  lemma {:induction false} JoinTextsCons(t: string, ts: seq<string>, k: nat)
    requires k < |ts|
    ensures JoinTexts([t] + ts, k + 1) == JoinTexts(ts, k)
    decreases |ts| - k
  {
    if k + 1 < |ts| {
      JoinTextsCons(t, ts, k + 1);
    }
  }

  lemma {:induction false} TextIsJoin(rs: seq<Range>, i: nat, acc: string)
    requires Printable(rs) && i < |rs|
    ensures TextFrom(rs, i, acc) == acc + JoinTexts(GroupTexts(rs, i), 0)
    decreases |rs| - i
  {
    var e, t := GroupEnd(rs, i + 1), GroupText(rs, i);
    GroupIsToken(rs, i);
    if e < |rs| {
      TextIsJoin(rs, e, acc + t + ",");
      JoinTextsCons(t, GroupTexts(rs, e), 0);
      Regroup(acc, t, ",", JoinTexts(GroupTexts(rs, e), 0));
    } else {
      assert GroupTexts(rs, i) == [t];
    }
  }

  lemma {:induction false} GroupsAreTokens(rs: seq<Range>, i: nat)
    requires Printable(rs) && i <= |rs|
    ensures forall k :: 0 <= k < |GroupTexts(rs, i)| ==> TokenLike(GroupTexts(rs, i)[k])
    decreases |rs| - i
  {
    if i < |rs| {
      GroupIsToken(rs, i);
      GroupsAreTokens(rs, GroupEnd(rs, i + 1));
    }
  }

  lemma {:induction false} TokensOfText(rs: seq<Range>)
    requires Printable(rs)
    ensures Tokens(Text(rs), 0) == GroupTexts(rs, 0)
  {
    if rs != [] {
      TextIsJoin(rs, 0, "");
      GroupsAreTokens(rs, 0);
      assert Text(rs)[0..] == Text(rs) == JoinTexts(GroupTexts(rs, 0), 0);
      TokensOfJoin(Text(rs), 0, GroupTexts(rs, 0), 0);
      assert GroupTexts(rs, 0)[0..] == GroupTexts(rs, 0);
    }
  }

  /**
   * Print then parse.  For prefixes free of separators and brackets and names that are not empty, the printed text
   * of a list is read back as the same sequence of names exactly when no bracket is beyond the parser's limits of
   * 16384 hosts a range and 10240 ranges a bracket; otherwise it is rejected.
   */
  lemma {:induction false} PrintThenParse(rs: seq<Range>)
    requires Printable(rs)
    ensures var o := Parse(Text(rs));
            if AllFit(rs, 0) then o.Accepted? && AllOk(o.ranges) && Names(Expand(o.ranges)) == Names(Expand(rs))
            else o == Rejected
  {
    TokensOfText(rs);
    assert Brought([], rs, 0);
    ReadGroups([], rs, 0);
  }
}
