/** hostlist_uniq: qsort, then one pass that joins each range with its successor where they touch or overlap. */
module HostlistUniq {
  import opened Decimal
  import opened Seqs
  import opened Hosts
  import opened Hostranges
  import opened Hostlists
  import opened HostlistSort
  import opened HostlistNames
  import opened Agreement
  import opened HostlistJams

  ghost predicate SameSet(a: seq<Host>, b: seq<Host>) {
    forall h :: h in a <==> h in b
  }

  lemma {:induction false} BagSet(a: seq<Host>, b: seq<Host>)
    requires multiset(a) == multiset(b)
    ensures SameSet(a, b)
  {
    forall h: Host
      ensures h in a <==> h in b
    {
      assert h in a <==> h in multiset(a);
      assert h in b <==> h in multiset(b);
    }
  }

  /** The second range begins later than the first ends, and the two could not be one. */
  ghost predicate Beyond(a: Range, b: Range) { Compare(Last(a), First(b)) < 0 && Gap(a, b) }

  ghost predicate Distinct(rs: seq<Range>, i: int) {
    forall k :: 0 < k < i && k < |rs| ==> Beyond(rs[k - 1], rs[k])
  }

  /** Ranges that agree and have been kept apart by the joining step. */
  lemma {:induction false} ApartIsBeyond(a: Range, b: Range)
    requires a.Ok() && b.Ok() && Below(First(a), First(b)) && Apart(a, b) && Agrees(a, b)
    ensures Beyond(a, b)
  {
    StrCmpAntisymmetric(a.prefix, b.prefix);
    if a.prefix == b.prefix && !a.single && !b.single {
      if Combine(a, b).0 {
        PrintedAgreesUpward(a.lo, a.hi, a.width, Combine(a, b).1.width);
        DigitsMonotone(a.hi, b.lo);
      } else {
        AgreeInOrder(a, b);
      }
    }
  }

  /** The hosts of a list whose ranges j - 1 and j became one range with their union. */
  lemma {:induction false} UnionKeepsSet(rs: seq<Range>, j: nat, a: Range)
    requires 0 < j < |rs|
    requires forall h :: h in HostsOf(a) <==> h in HostsOf(rs[j - 1]) || h in HostsOf(rs[j])
    ensures SameSet(Expand(rs[..j - 1] + [a] + rs[j + 1..]), Expand(rs))
    ensures |Expand(rs[..j - 1] + [a] + rs[j + 1..])|
         == |Expand(rs)| - |HostsOf(rs[j - 1])| - |HostsOf(rs[j])| + |HostsOf(a)|
  {
    ExpandPair(rs, j, [a]);
    ExpandOne(a);
    UnionInMiddle(Expand(rs[..j - 1]), HostsOf(rs[j - 1]), HostsOf(rs[j]), HostsOf(a), Expand(rs[j + 1..]));
  }

  lemma {:induction false} UnionInMiddle(x: seq<Host>, a: seq<Host>, b: seq<Host>, c: seq<Host>, y: seq<Host>)
    requires forall h :: h in c <==> h in a || h in b
    ensures SameSet(x + c + y, x + (a + b) + y)
  {}

  /** The state of the pass: well formed, in order, with the hosts of hs. */
  ghost predicate InOrder(rs: seq<Range>, hs: seq<Host>) {
    AllOk(rs) && AllSmall(rs) && Adjacent(Firsts(rs)) && SameSet(Expand(rs), hs)
  }

  lemma {:induction false} JoinedInOrder(rs: seq<Range>, j: nat, a: Range)
    requires 0 < j < |rs| && AllOk(rs) && AllSmall(rs) && Adjacent(Firsts(rs))
    requires a.Ok() && Small(a) && First(a) == First(rs[j - 1])
    ensures var qs := rs[..j - 1] + [a] + rs[j + 1..]; AllOk(qs) && AllSmall(qs) && Adjacent(Firsts(qs))
  {
    assert Firsts(rs[..j - 1] + [a] + rs[j + 1..]) == Without(Firsts(rs), j);
    AdjacentWithout(Firsts(rs), j);
  }

  lemma {:induction false} AdjacentWithout(fs: seq<Host>, j: nat)
    requires 0 < j < |fs| && Adjacent(fs)
    ensures Adjacent(Without(fs, j))
  {
    if j + 1 < |fs| {
      CompareTransitive(fs[j - 1], fs[j], fs[j + 1]);
    }
  }

  /** The ranges after trying to join j - 1 and j. */
  ghost function Attempted(rs: seq<Range>, j: nat, ndup: int, a: Range, b: Range): seq<Range>
    requires 0 < j < |rs|
  {
    if ndup >= 0 then rs[..j - 1] + [a] + rs[j + 1..] else rs[j - 1 := a][j := b]
  }

  /** An attempt keeps order and set of hosts, and says truly by how much the count falls. */
  lemma {:induction false} AttemptKeeps(rs: seq<Range>, hs: seq<Host>, j: nat, ndup: int, a: Range, b: Range)
    requires 0 < j < |rs| && InOrder(rs, hs) && Joined(rs[j - 1], rs[j], ndup, a, b)
    ensures InOrder(Attempted(rs, j, ndup, a, b), hs)
    ensures |Expand(Attempted(rs, j, ndup, a, b))| == |Expand(rs)| - if ndup >= 0 then ndup else 0
  {
    if ndup >= 0 {
      UnionKeepsSet(rs, j, a);
      JoinedInOrder(rs, j, a);
    } else {
      StoreKeepsOk(rs, j, a, b);
      StoreKeepsBag(rs, j, a, b);
      assert Firsts(rs)[j - 1 := First(a)][j := First(b)] == Firsts(rs);
    }
  }

  /** The pairs before are as they were, since the range at j - 1 still begins as it did. */
  lemma {:induction false} DistinctFront(rs: seq<Range>, qs: seq<Range>, j: nat)
    requires 0 < j <= |rs| && j <= |qs| && Distinct(rs, j) && rs[..j - 1] == qs[..j - 1]
    requires First(qs[j - 1]) == First(rs[j - 1])
    ensures Distinct(qs, j)
  {
    forall k | 0 < k < j
      ensures Beyond(qs[k - 1], qs[k])
    {
      assert Beyond(rs[k - 1], rs[k]) && qs[k - 1] == qs[..j - 1][k - 1] == rs[..j - 1][k - 1];
      if k < j - 1 {
        assert qs[k] == qs[..j - 1][k] == rs[..j - 1][k];
      } else {
        BeyondStart(rs[k - 1], rs[k], qs[k]);
      }
    }
  }

  lemma {:induction false} BeyondStart(a: Range, b: Range, b': Range)
    requires Beyond(a, b) && First(b) == First(b')
    ensures Beyond(a, b')
  {
    if !a.single && !b'.single && a.prefix == b'.prefix && Combine(a, b').0 {
      SameFirstCombines(b', b, a);
    }
  }

  /** An attempt that keeps the ranges apart makes one more pair distinct; any other keeps the pairs before. */
  lemma {:induction false} AttemptDistinct(rs: seq<Range>, j: nat, ndup: int, a: Range, b: Range)
    requires 0 < j < |rs| && Distinct(rs, j) && Joined(rs[j - 1], rs[j], ndup, a, b)
    requires rs[j - 1].Ok() && rs[j].Ok() && Below(First(rs[j - 1]), First(rs[j])) && Agrees(rs[j - 1], rs[j])
    ensures Distinct(Attempted(rs, j, ndup, a, b), if ndup >= 0 then j else j + 1)
  {
    var qs := Attempted(rs, j, ndup, a, b);
    DistinctFront(rs, qs, j);
    if ndup < 0 {
      SameHostsPart(rs[j - 1], a);
      SameHostsPart(rs[j], b);
      PartsOfTwoAgree(a, rs[j - 1], b, rs[j]);
      ApartIsBeyond(a, b);
    }
  }

  /** An earlier range that agrees with a agrees with what a has grown into. */
  lemma {:induction false} EarlierAgrees(c: Range, a: Range, a': Range)
    requires a.Ok() && Below(First(c), First(a)) && First(a') == First(a) && Agrees(c, a)
    ensures Agrees(c, a')
  {
    if c.prefix == a.prefix && !c.single && !a.single {
      if Combine(c, a).0 {
        UniformCombines(c, a', Combine(c, a).1.width);
      } else {
        AgreeInOrder(c, a);
      }
    }
  }

  /** A later range that agrees with a and b agrees with what they have become. */
  lemma {:induction false} LaterAgrees(a: Range, b: Range, a': Range, c: Range)
    requires c.Ok() && Merged(a, b, a') && First(a') == First(a) && Agrees(a, c) && Agrees(b, c)
    requires Below(First(a), First(b)) && Below(First(b), First(c))
    ensures Agrees(a', c)
  {
    if c.prefix == a.prefix && !c.single && !a.single {
      if Combine(a, c).0 {
        SameFirstCombines(a, a', c);
      } else {
        CompareTransitive(First(a), First(b), First(c));
        AgreeInOrder(a, c);
        if Combine(b, c).0 {
          CombineChain(a, b, c);
        } else {
          AgreeInOrder(b, c);
        }
      }
    }
  }

  /** What range j - 1 has become agrees with every other range. */
  lemma {:induction false} JoinedAgrees(rs: seq<Range>, j: nat, a: Range, k: nat)
    requires 0 < j < |rs| && AllOk(rs) && Adjacent(Firsts(rs)) && AllAgree(rs)
    requires Merged(rs[j - 1], rs[j], a) && First(a) == First(rs[j - 1]) && k < |rs| && k != j - 1 && k != j
    ensures Agrees(a, rs[k])
  {
    if k < j - 1 {
      FirstsInOrder(Firsts(rs), k, j - 1);
      EarlierAgrees(rs[k], rs[j - 1], a);
      AgreesSymmetric(rs[k], a);
    } else {
      FirstsInOrder(Firsts(rs), j - 1, j);
      FirstsInOrder(Firsts(rs), j, k);
      LaterAgrees(rs[j - 1], rs[j], a, rs[k]);
    }
  }

  lemma {:induction false} JoinedAllAgree(rs: seq<Range>, j: nat, a: Range)
    requires 0 < j < |rs| && AllOk(rs) && Adjacent(Firsts(rs)) && AllAgree(rs)
    requires Merged(rs[j - 1], rs[j], a) && First(a) == First(rs[j - 1])
    ensures AllAgree(rs[..j - 1] + [a] + rs[j + 1..])
  {
    var qs := rs[..j - 1] + [a] + rs[j + 1..];
    forall k, l | 0 <= k < |qs| && 0 <= l < |qs|
      ensures Agrees(qs[k], qs[l])
    {
      var k', l' := if k < j then k else k + 1, if l < j then l else l + 1;
      assert (k != j - 1 ==> qs[k] == rs[k']) && (l != j - 1 ==> qs[l] == rs[l']);
      if k == j - 1 && l != j - 1 {
        JoinedAgrees(rs, j, a, l');
      } else if l == j - 1 && k != j - 1 {
        JoinedAgrees(rs, j, a, k');
        AgreesSymmetric(a, rs[k']);
      }
    }
  }

  lemma {:induction false} JoinedParts(rs: seq<Range>, j: nat, a: Range)
    requires 0 < j < |rs| && AllOk(rs) && Merged(rs[j - 1], rs[j], a)
    ensures Parts(rs, rs[..j - 1] + [a] + rs[j + 1..])
  {
    var qs := rs[..j - 1] + [a] + rs[j + 1..];
    forall k
      ensures PartAt(rs, k, qs)
    {
      if 0 <= k < |rs| {
        SameHostsPart(rs[k], rs[k]);
        assert Part(rs[k], qs[if k < j then k else k - 1]);
      }
    }
  }

  /** An attempt changes nothing in whether the ranges agree. */
  lemma {:induction false} AttemptAgrees(rs: seq<Range>, j: nat, ndup: int, a: Range, b: Range)
    requires 0 < j < |rs| && AllOk(rs) && Adjacent(Firsts(rs)) && Joined(rs[j - 1], rs[j], ndup, a, b)
    ensures AllAgree(Attempted(rs, j, ndup, a, b)) <==> AllAgree(rs)
  {
    if ndup < 0 {
      StoreAlike(rs, j, a, b);
      AlikeAgree(rs[j - 1 := a][j := b], rs);
    } else {
      JoinedParts(rs, j, a);
      if AllAgree(rs) {
        JoinedAllAgree(rs, j, a);
      } else if AllAgree(rs[..j - 1] + [a] + rs[j + 1..]) {
        PartsAgree(rs, rs[..j - 1] + [a] + rs[j + 1..]);
      }
    }
  }

  /** Tries to join ranges loc - 1 and loc: negative when they stay apart, else the number of repeated hosts dropped. */
  method AttemptRangeJoin(hl: Hostlist, loc: nat) returns (ndup: int, ghost a: Range, ghost b: Range)
    requires hl.Valid() && 0 < loc < hl.nranges
    requires AllOk(hl.Ranges()) && AllSmall(hl.Ranges()) && Below(First(hl.hr[loc - 1]), First(hl.hr[loc]))
    requires Countable(hl.hr[loc])
    modifies hl`nranges, hl`nhosts, hl.hr
    ensures hl.Valid() && Joined(old(hl.hr[loc - 1]), old(hl.hr[loc]), ndup, a, b)
    ensures hl.Ranges() == Attempted(old(hl.Ranges()), loc, ndup, a, b)
    ensures hl.nhosts == old(hl.nhosts) - if ndup >= 0 then ndup else 0
  {
    var h1, h2;
    ghost var shared;
    ndup, h1, h2, shared := Join(hl.hr[loc - 1], hl.hr[loc]);
    JoinCounts(shared);
    a, b := h1, h2;
    hl.StoreTwo(loc, h1, h2);
    if ndup >= 0 {
      hl.DeleteRange(loc);
      hl.nhosts := hl.nhosts - ndup;
    }
  }

  /** The state of the pass at range i: the pairs before it are distinct, if the ranges given agree. */
  ghost predicate Passed(rs: seq<Range>, hs: seq<Host>, agree: bool, i: int) {
    InOrder(rs, hs) && (AllAgree(rs) <==> agree) && (agree ==> Distinct(rs, i))
  }

  lemma {:induction false} AttemptPassed(rs: seq<Range>, hs: seq<Host>, agree: bool, j: nat, ndup: int, a: Range,
                                         b: Range)
    requires 0 < j < |rs| && Passed(rs, hs, agree, j) && Joined(rs[j - 1], rs[j], ndup, a, b)
    ensures Passed(Attempted(rs, j, ndup, a, b), hs, agree, if ndup >= 0 then j else j + 1)
    ensures |Expand(Attempted(rs, j, ndup, a, b))| == |Expand(rs)| - if ndup >= 0 then ndup else 0
  {
    AttemptKeeps(rs, hs, j, ndup, a, b);
    AttemptAgrees(rs, j, ndup, a, b);
    if agree {
      assert Below(Firsts(rs)[j - 1], Firsts(rs)[j]);
      AttemptDistinct(rs, j, ndup, a, b);
    }
  }

  /** The ranges still to come are as they were. */
  lemma {:induction false} AttemptCountable(rs: seq<Range>, j: nat, ndup: int, a: Range, b: Range)
    requires 0 < j < |rs| && AllCountable(rs, j)
    ensures AllCountable(Attempted(rs, j, ndup, a, b), if ndup >= 0 then j else j + 1)
  {
    var qs := Attempted(rs, j, ndup, a, b);
    forall k | (if ndup >= 0 then j else j + 1) <= k < |qs|
      ensures Countable(qs[k])
    {
      assert qs[k] == rs[if ndup >= 0 then k + 1 else k];
    }
  }

  /** Reordering ranges and rewriting widths lets no range grow. */
  lemma {:induction false} AlikeCountable(qs: seq<Range>, rs: seq<Range>)
    requires Alike(qs, rs) && AllCountable(rs, 0)
    ensures AllCountable(qs, 0)
  {
    forall k | 0 <= k < |qs|
      ensures Countable(qs[k])
    {
      assert PartAt(qs, k, rs);
    }
  }

  /** One attempt at position i of the pass, with what it does to the pass's state. */
  method UniqStep(hl: Hostlist, i: nat, ghost hs: seq<Host>, ghost agree: bool) returns (joined: bool)
    requires hl.Valid() && 0 < i < hl.nranges && Passed(hl.Ranges(), hs, agree, i) && hl.nhosts == |hl.Contents()|
    requires AllCountable(hl.Ranges(), i)
    modifies hl`nranges, hl`nhosts, hl.hr
    ensures hl.Valid() && hl.nhosts == |hl.Contents()| && hl.nranges == old(hl.nranges) - if joined then 1 else 0
    ensures Passed(hl.Ranges(), hs, agree, if joined then i else i + 1)
    ensures AllCountable(hl.Ranges(), if joined then i else i + 1)
  {
    ghost var rs := hl.Ranges();
    assert Below(Firsts(rs)[i - 1], Firsts(rs)[i]);
    var ndup;
    ghost var a, b;
    ndup, a, b := AttemptRangeJoin(hl, i);
    AttemptPassed(rs, hs, agree, i, ndup, a, b);
    AttemptCountable(rs, i, ndup, a, b);
    joined := ndup >= 0;
  }

  /**
   * hostlist_uniq.  The set of hosts is kept and the count stays the number of hosts, whatever the ranges.  No host is
   * left twice and the hosts are in ascending order exactly when the ranges given agree; then the ranges are the
   * maximal runs, and no name is left twice either, unless two of the ranges given are confusable.
   */
  method Uniq(hl: Hostlist)
    requires hl.Sound() && AllSmall(hl.Ranges()) && AllCountable(hl.Ranges(), 0)
    modifies hl`nranges, hl`nhosts, hl.hr
    ensures hl.Sound() && SameSet(hl.Contents(), old(hl.Contents()))
    ensures Ascending(hl.Contents(), true) <==> AllAgree(old(hl.Ranges()))
    ensures AllAgree(old(hl.Ranges())) ==> Distinct(hl.Ranges(), hl.nranges)
    ensures AllAgree(old(hl.Ranges())) ==> (NoNameTwice(hl.Contents()) <==> !AnyConfusable(old(hl.Ranges())))
  {
    ghost var rs := hl.Ranges();
    ghost var agree := AllAgree(rs);
    if hl.nranges > 1 {
      SortAndPass(hl, agree);
    } else {
      AtMostOne(rs);
    }
    PassEnds(hl.Ranges(), agree);
    OrderedIsAscending(hl.Contents(), true);
    if agree {
      NamesLeft(rs, hl.Contents());
    }
  }

  lemma {:induction false} AtMostOne(rs: seq<Range>)
    requires |rs| <= 1 && AllOk(rs) && AllSmall(rs)
    ensures Passed(rs, Expand(rs), true, |rs|) && AllAgree(rs)
  {}

  lemma {:induction false} PassEnds(rs: seq<Range>, agree: bool)
    requires AllOk(rs) && Adjacent(Firsts(rs)) && (AllAgree(rs) <==> agree) && (agree ==> Distinct(rs, |rs|))
    ensures Ordered(Expand(rs), true) <==> agree
  {
    if agree {
      DistinctOrdered(rs);
    } else {
      DisagreementJams(rs);
      JammedIsUnordered(rs);
      if Ordered(Expand(rs), true) {
        Weaken(Expand(rs));
      }
    }
  }

  /** The sort and the pass, for two ranges or more. */
  method SortAndPass(hl: Hostlist, ghost agree: bool)
    requires hl.Sound() && AllSmall(hl.Ranges()) && AllCountable(hl.Ranges(), 0)
    requires hl.nranges > 1 && (AllAgree(hl.Ranges()) <==> agree)
    modifies hl`nranges, hl`nhosts, hl.hr
    ensures hl.Sound() && Passed(hl.Ranges(), old(hl.Contents()), agree, hl.nranges)
  {
    ghost var hs, rs := hl.Contents(), hl.Ranges();
    HostlistSort.QSort(hl);
    PassStarts(hl.Ranges(), rs, agree);
    AlikeCountable(hl.Ranges(), rs);
    var i := 1;
    while i < hl.nranges
      modifies hl`nranges, hl`nhosts, hl.hr
      invariant hl.Valid() && 0 < i <= hl.nranges && hl.nhosts == |hl.Contents()|
      invariant Passed(hl.Ranges(), hs, agree, i) && AllCountable(hl.Ranges(), i)
      decreases hl.nranges - i
    {
      var joined := UniqStep(hl, i, hs, agree);
      if !joined {
        i := i + 1;
      }
    }
  }

  lemma {:induction false} PassStarts(qs: seq<Range>, rs: seq<Range>, agree: bool)
    requires AllOk(qs) && AllSmall(qs) && Adjacent(Firsts(qs)) && Alike(qs, rs)
    requires multiset(Expand(qs)) == multiset(Expand(rs)) && (AllAgree(rs) <==> agree)
    ensures Passed(qs, Expand(rs), agree, 1) && |Expand(qs)| == |Expand(rs)|
  {
    BagSet(Expand(qs), Expand(rs));
    AlikeAgree(qs, rs);
    assert |multiset(Expand(qs))| == |Expand(qs)| && |multiset(Expand(rs))| == |Expand(rs)|;
  }

  /** Which names are left twice can be read off the ranges given. */
  lemma {:induction false} NamesLeft(rs: seq<Range>, hs: seq<Host>)
    requires SameSet(hs, Expand(rs)) && Ordered(hs, true)
    ensures NoNameTwice(hs) <==> !AnyConfusable(rs)
  {
    TwiceIff(hs);
    ClashIff(rs);
    if NameClash(Expand(rs)) {
      var h, k :| h in Expand(rs) && k in Expand(rs) && h != k && Name(h) == Name(k);
      assert h in hs && k in hs;
    }
    if NameClash(hs) {
      var h, k :| h in hs && k in hs && h != k && Name(h) == Name(k);
      assert h in Expand(rs) && k in Expand(rs);
    }
  }

  lemma {:induction false} OneNameTwoHosts()
    ensures Name(Numbered("f", 1, 2)) == Name(Numbered("f0", 1, 1)) == "f01"
  {
    assert Numeral(1, 2) == Numeral(0, 1) + "1" && Numeral(0, 1) == "" + "0" && Numeral(1, 1) == "" + "1";
  }

  lemma {:induction false} ShorterPrefixFirst(a: Range, b: Range)
    requires a.prefix == "f" && b.prefix == "f0"
    ensures Beyond(a, b) && Agrees(a, b)
  {
    assert "f"[1..] == "" && "f0"[1..] == "0" && "f"[0] == "f0"[0];
    assert StrCmp("f", "f0") == StrCmp("", "0") == -1;
  }

  /** Two hosts of a list, under different prefixes, have one name. */
  lemma {:induction false} TwoHostsClash(a: Range, b: Range)
    requires a.Ok() && b.Ok() && First(a) != First(b) && Name(First(a)) == Name(First(b))
    ensures AnyConfusable([a, b])
  {
    HostsEnds(a);
    HostsEnds(b);
    RangeInList([a, b], 2, 0, First(a));
    RangeInList([a, b], 2, 1, First(b));
    ClashIff([a, b]);
  }

  /**
   * Hosts that are different but have one name stay: f[01-02] and f0[1-2] agree and are in order, no host is there
   * twice, and both begin with f01.
   */
  lemma {:induction false} NameTwice()
    ensures var a, b := Range("f", 1, 2, 2, false), Range("f0", 1, 2, 1, false);
            && AllOk([a, b]) && Distinct([a, b], 2) && Ordered(Expand([a, b]), true) && Agrees(a, b)
            && First(a) != First(b) && Name(First(a)) == Name(First(b)) == "f01" && AnyConfusable([a, b])
  {
    var a, b := Range("f", 1, 2, 2, false), Range("f0", 1, 2, 1, false);
    assert First(a) == Numbered("f", 1, 2) && First(b) == Numbered("f0", 1, 1);
    OneNameTwoHosts();
    ShorterPrefixFirst(a, b);
    TwoHostsClash(a, b);
    DistinctOrdered([a, b]);
  }

  lemma {:induction false} DistinctOrdered(rs: seq<Range>)
    requires AllOk(rs) && Distinct(rs, |rs|)
    ensures Ordered(Expand(rs), true)
  {
    forall k | 0 < k < |rs|
      ensures Before(Last(rs[k - 1]), First(rs[k]), true)
    {
      assert Beyond(rs[k - 1], rs[k]);
    }
    ChainOrdered(rs, |rs|, true);
  }
}
