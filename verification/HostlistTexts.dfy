/** What a printed list looks like, said of its hosts. */
module HostlistTexts {
  import opened Decimal
  import opened Seqs
  import opened Hosts
  import opened Hostranges
  import opened HostlistOps
  import opened HostlistPrint
  import opened HostlistRoundTrip

  // ---- numerals ----

  /** A numeral without padding: the usual digits, the last one least. */
  lemma {:induction false} PlainNumeral(v: nat, d: nat)
    requires d < 10
    ensures Format(d, 0) == ["0123456789"[d]]
    ensures v > 0 ==> Format(10 * v + d, 0) == Format(v, 0) + ["0123456789"[d]]
  {
    LastDigit(v, d);
    assert Numeral(d, 1) == Numeral(d / 10, 0) + ['0' + (d % 10) as char];
    assert '0' + d as char == "0123456789"[d];
  }

  lemma {:induction false} ZeroInFront(n: nat, len: nat)
    requires len >= Digits(n)
    ensures Numeral(n, len + 1) == "0" + Numeral(n, len)
    decreases len
  {
    if n < 10 {
      if len > 1 {
        ZeroInFront(0, len - 1);
      }
    } else {
      ZeroInFront(n / 10, len - 1);
    }
    Assoc("0", Numeral(n / 10, len - 1), ['0' + (n % 10) as char]);
  }

  /** A width below the number of digits changes nothing; each further one puts a zero in front. */
  lemma {:induction false} PaddedNumeral(n: nat, w: nat)
    ensures w <= |Format(n, 0)| ==> Format(n, w) == Format(n, 0)
    ensures w >= |Format(n, 0)| ==> Format(n, w + 1) == "0" + Format(n, w)
  {
    if w >= Digits(n) {
      ZeroInFront(n, w);
    }
  }

  // ---- groups ----

  /** Two ranges that may share a bracket: numbered, with the same prefix. */
  predicate Alike(a: Range, b: Range) { !a.single && !b.single && a.prefix == b.prefix }

  /** Neighbours k - 1 and k may share a bracket. */
  ghost predicate AlikeAt(rs: seq<Range>, k: int) { 0 < k < |rs| && Alike(rs[k - 1], rs[k]) }

  /** A group takes in neighbours for as long as they may share a bracket. */
  lemma {:induction false} GroupIsMaximal(rs: seq<Range>, j: nat)
    requires 0 < j <= |rs|
    ensures forall k :: j <= k < GroupEnd(rs, j) ==> AlikeAt(rs, k)
    ensures !AlikeAt(rs, GroupEnd(rs, j))
    decreases |rs| - j
  {
    if j < |rs| {
      SamePrefix(rs[j], rs[j - 1]);
      if WithinRange(rs[j], rs[j - 1]) {
        GroupIsMaximal(rs, j + 1);
      }
    }
  }

  /** The numbers of a range with one host are that host's number; otherwise the first and the last, with a dash. */
  lemma {:induction false} NumReads(r: Range)
    requires r.Ok()
    ensures if |HostsOf(r)| == 1 then r.prefix + Num(r) == Name(First(r))
            else !r.single && r.prefix + Num(r) == Name(First(r)) + "-" + Format(r.hi, r.width)
  {
    if r.single {
      assert r.prefix + "" == r.prefix;
    } else if r.lo == r.hi {
      assert Num(r) == Format(r.lo, r.width) + "" == Format(r.lo, r.width);
    } else {
      assert r.prefix + (Format(r.lo, r.width) + ("-" + Format(r.hi, r.width)))
          == r.prefix + Format(r.lo, r.width) + "-" + Format(r.hi, r.width);
    }
  }

  /** How many hosts a group stands for. */
  lemma {:induction false} GroupHosts(rs: seq<Range>, i: nat, e: nat)
    requires AllOk(rs) && i < e <= |rs|
    ensures |Expand(rs[i..e])| == 1 <==> e == i + 1 && rs[i].Count() == 1
    ensures e == i + 1 ==> Expand(rs[i..e]) == HostsOf(rs[i])
    ensures |Expand(rs[i..e])| >= 1
  {
    var g := rs[i..e];
    ExpandToGrows(g, 1, |g|);
    ExpandToGrows(g, 0, 1);
    if e == i + 1 {
      assert g == [rs[i]];
      ExpandOne(rs[i]);
    }
  }

  /**
   * A group that stands for one host is printed as that host's name; one of several hosts as their prefix and the
   * numbers in brackets.
   */
  lemma {:induction false} GroupReads(rs: seq<Range>, i: nat)
    requires AllOk(rs) && i < |rs|
    ensures var e := GroupEnd(rs, i + 1);
            var hs := Expand(rs[i..e]);
            if |hs| == 1 then GroupText(rs, i) == Name(hs[0])
            else !rs[i].single && GroupText(rs, i) == rs[i].prefix + "[" + Nums(rs, i, e) + "]"
  {
    var e := GroupEnd(rs, i + 1);
    GroupHosts(rs, i, e);
    GroupTextIs(rs, i);
    BracketIsSeveral(rs, i);
    if |Expand(rs[i..e])| == 1 {
      OneHost(rs[i]);
      NumReads(rs[i]);
    } else {
      BracketMembers(rs, i);
    }
  }

  lemma {:induction false} BracketIsSeveral(rs: seq<Range>, i: nat)
    requires AllOk(rs) && i < |rs|
    ensures BracketNeeded(rs, i) <==> rs[i].Count() > 1 || GroupEnd(rs, i + 1) > i + 1
  {
    if i + 1 < |rs| {
      SamePrefix(rs[i], rs[i + 1]);
      SamePrefix(rs[i + 1], rs[i]);
    }
  }

  /** The text of a list of one host is that host's name. */
  lemma {:induction false} OneHostText(rs: seq<Range>)
    requires AllOk(rs) && |Expand(rs)| == 1
    ensures Text(rs) == Name(Expand(rs)[0])
  {
    ExpandToGrows(rs, 0, |rs|);
    assert rs != [];
    GroupReads(rs, 0);
    assert rs[0..1] == rs;
    TextOfOne(rs);
  }

  lemma {:induction false} TextOfOne(rs: seq<Range>)
    requires |rs| == 1
    ensures Text(rs) == GroupText(rs, 0)
  {
    var t := GroupText(rs, 0);
    assert GroupEnd(rs, 1) == 1;
    assert "" + t == t;
    assert TextFrom(rs, 1, t) == t;
  }

  // ---- an example ----

  lemma {:induction false} Plainly(n: nat)
    requires n < 10
    ensures Format(n, 1) == ["0123456789"[n]]
    ensures Format(n, 2) == "0" + ["0123456789"[n]]
  {
    PlainNumeral(0, n);
    PaddedNumeral(n, 1);
  }

  lemma {:induction false} TextTurn(rs: seq<Range>, i: nat, acc: string, acc': string)
    requires i < |rs| && GroupText(rs, i) != ""
    requires acc' == acc + GroupText(rs, i) + if GroupEnd(rs, i + 1) < |rs| then "," else ""
    ensures TextFrom(rs, i, acc) == TextFrom(rs, GroupEnd(rs, i + 1), acc')
  {
    assert acc + GroupText(rs, i) + "" == acc + GroupText(rs, i);
  }

  lemma {:induction false} ExampleNums()
    ensures Num(Range("f", 1, 3, 1, false)) == "1-3" && Num(Range("f", 7, 7, 2, false)) == "07"
    ensures Num(Range("g", 0, 0, 0, true)) == "" && Num(Range("h", 5, 5, 1, false)) == "5"
  {
    Plainly(1);
    Plainly(3);
    Plainly(5);
    Plainly(7);
  }

  lemma {:induction false} ExampleGroups(rs: seq<Range>)
    requires rs == [Range("f", 1, 3, 1, false), Range("f", 7, 7, 2, false), Range("g", 0, 0, 0, true),
                    Range("h", 5, 5, 1, false)]
    ensures GroupEnd(rs, 1) == 2 && GroupText(rs, 0) == "f[1-3,07]"
    ensures GroupEnd(rs, 3) == 3 && GroupText(rs, 2) == "g"
    ensures GroupEnd(rs, 4) == 4 && GroupText(rs, 3) == "h5"
  {
    SamePrefix(rs[0], rs[1]);
    SamePrefix(rs[1], rs[0]);
    ExampleNums();
    assert GroupEnd(rs, 1) == 2;
    assert Nums(rs, 0, 1) == "1-3" && Nums(rs, 0, 2) == "1-3,07";
  }

  /** f1 to f3 and f07 share a bracket; g and h5 have none. */
  lemma {:induction false} ExampleText()
    ensures Text([Range("f", 1, 3, 1, false), Range("f", 7, 7, 2, false), Range("g", 0, 0, 0, true),
                  Range("h", 5, 5, 1, false)])
         == "f[1-3,07],g,h5"
  {
    var rs := [Range("f", 1, 3, 1, false), Range("f", 7, 7, 2, false), Range("g", 0, 0, 0, true),
               Range("h", 5, 5, 1, false)];
    ExampleGroups(rs);
    TextTurn(rs, 3, "f[1-3,07],g,", "f[1-3,07],g,h5");
    TextTurn(rs, 2, "f[1-3,07],", "f[1-3,07],g,");
    TextTurn(rs, 0, "", "f[1-3,07],");
    assert TextFrom(rs, 4, "f[1-3,07],g,h5") == "f[1-3,07],g,h5";
  }
}
