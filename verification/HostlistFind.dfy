/** hostlist_find: splitting a host name, matching it against a range, and searching the list. */
module HostlistFind {
  import opened Options
  import opened Decimal
  import opened Seqs
  import opened Hosts
  import opened Hostranges
  import opened Hostlists
  import opened HostlistOps

  /** Largest number a host name's suffix may hold. */
  const MAX_HOST_SUFFIX: nat := 0x200_0000

  /** A host name cut into prefix and decimal suffix; without a usable suffix the prefix is the whole name. */
  datatype Hostname = Hostname(hostname: string, prefix: string, num: nat, suffix: Option<string>) {
    ghost predicate Valid() {
      match suffix
      case None => prefix == hostname
      case Some(s) => s != "" && AllDigits(s) && hostname == prefix + s && num == Value(s) <= MAX_HOST_SUFFIX
    }

    /** As split off at first: all the digits the name ends with, if they are few enough to be searched for. */
    ghost predicate Fresh() {
      && Valid()
      && (suffix.Some? <==> Searchable(hostname) && DigitTail(hostname) != "")
      && (suffix.Some? ==> suffix.value == DigitTail(hostname))
    }
  }

  /** strtoul on a digit string saturates. */
  function StrtoulDigits(s: string): ulong
    requires AllDigits(s)
  {
    if Value(s) < ULONG_MOD then Value(s) else ULONG_MOD - 1
  }

  /** Index of the last character that is not a digit, or -1. */
  method HostPrefixEnd(hostname: string) returns (idx: int)
    ensures -1 <= idx < |hostname| && AllDigits(hostname[idx + 1..])
    ensures idx >= 0 ==> !IsDigit(hostname[idx])
  {
    idx := |hostname| - 1;
    while idx >= 0 && IsDigit(hostname[idx])
      invariant -1 <= idx < |hostname| && AllDigits(hostname[idx + 1..])
    {
      idx := idx - 1;
    }
  }

  method CreateWithSuffix(hostname: string, idx: int) returns (hn: Hostname)
    requires -1 <= idx < |hostname| && AllDigits(hostname[idx + 1..])
    ensures hn.Valid() && hn.hostname == hostname
    ensures hn.suffix.Some? <==> idx + 1 < |hostname| && Value(hostname[idx + 1..]) <= MAX_HOST_SUFFIX
    ensures hn.suffix.Some? ==> hn.prefix == hostname[..idx + 1] && hn.suffix.value == hostname[idx + 1..]
  {
    var suffix := hostname[idx + 1..];
    hn := Hostname(hostname, hostname, 0, None);
    if idx != |hostname| - 1 {
      var num := StrtoulDigits(suffix);
      if num <= MAX_HOST_SUFFIX {
        hn := Hostname(hostname, hostname[..idx + 1], num, Some(suffix));
      }
    }
  }

  method CreateHostname(hostname: string) returns (hn: Hostname)
    ensures hn.Fresh() && hn.hostname == hostname
  {
    var idx := HostPrefixEnd(hostname);
    DigitTailIs(hostname, idx);
    hn := CreateWithSuffix(hostname, idx);
  }

  /** The digits a name ends with. */
  function DigitTail(s: string): (t: string)
    ensures AllDigits(t) && |t| <= |s| && s[|s| - |t|..] == t
  {
    if s == "" || !IsDigit(s[|s| - 1]) then "" else DigitTail(s[..|s| - 1]) + [s[|s| - 1]]
  }

  lemma {:induction false} DigitTailIs(s: string, idx: int)
    requires -1 <= idx < |s| && AllDigits(s[idx + 1..]) && (idx >= 0 ==> !IsDigit(s[idx]))
    ensures DigitTail(s) == s[idx + 1..]
  {
    if idx < |s| - 1 {
      var front := s[..|s| - 1];
      forall k | idx + 1 <= k < |s|
        ensures IsDigit(s[k])
      {
        assert s[idx + 1..][k - idx - 1] == s[k];
      }
      DigitTailIs(front, idx);
    }
  }

  /** Can the search see a numbered host of this name? */
  predicate Searchable(name: string) { Value(DigitTail(name)) <= MAX_HOST_SUFFIX }

  // ---- one range ----

  /** A numeral of m that is len long fits the range's width exactly when the widths can be combined. */
  lemma {:induction false} WidthMatch(lo: nat, w: nat, m: nat, len: nat)
    requires lo <= m && Digits(m) <= len
    ensures Printed(m, w) == len <==> WidthEquiv(lo, w, m, len).0
  {
    DigitsMonotone(lo, m);
  }

  /** Some number of r is printed as s exactly when the value of s is in range and the widths can be combined. */
  lemma {:induction false} SuffixMatch(r: Range, s: string, k: nat)
    requires r.Ok() && !r.single && s != "" && AllDigits(s) && k < r.Count()
    ensures Format(r.lo + k, r.width) == s <==>
              Value(s) == r.lo + k && WidthEquiv(r.lo, r.width, Value(s), |s|).0
  {
    if Value(s) == r.lo + k {
      NumeralOfValue(s);
      FormatOfValue(s, r.width);
      WidthMatch(r.lo, r.width, Value(s), |s|);
    } else {
      ValueOfFormat(r.lo + k, r.width);
    }
  }

  /** Does host k of r have this name? */
  ghost predicate Named(r: Range, k: int, name: string) {
    0 <= k < r.Count() && Shown(r, k) == name
  }

  /** The offset of hn in r, or -1; may rewrite r's width.  hn's prefix is the shortest that could match. */
  method HnWithin(r: Range, hn: Hostname) returns (offset: int, r': Range)
    requires r.Ok() && hn.Valid()
    ensures SameHosts(r, r') && offset >= -1
    ensures offset >= 0 ==> Named(r, offset, hn.hostname)
    ensures offset == -1 && (r.single || (hn.suffix.Some? && |hn.prefix| <= |r.prefix|)) ==>
              forall k :: !Named(r, k, hn.hostname)
    ensures !r.single && hn.suffix == None ==> offset == -1
    decreases match hn.suffix case None => 0 case Some(s) => |s|
  {
    r' := r;
    if r.single {
      return if hn.hostname == r.prefix then 0 else -1, r;
    }
    if hn.suffix == None {
      return -1, r;
    }
    var suffix := hn.suffix.value;
    var lenHn, lenHr := |hn.prefix|, |r.prefix|;
    if !(hn.prefix <= r.prefix) {
      OtherPrefix(r, hn);
      return -1, r;
    }
    if lenHn < lenHr && |suffix| > 1 && IsDigit(r.prefix[lenHr - 1]) && r.prefix[lenHn] == suffix[0] {
      assert hn.hostname[lenHn + 1..] == suffix[1..];
      ValueOfTail(suffix);
      var h := CreateWithSuffix(hn.hostname, lenHn);
      offset, r' := HnWithin(r, h);
      return;
    }
    if lenHn < lenHr {
      ShorterPrefix(r, hn);
      return -1, r;
    }
    EqualPrefix(r, hn);
    offset := -1;
    if r.lo <= hn.num <= r.hi {
      var ok, w, w' := CompareWidths(r.lo, r.width, hn.num, |suffix|);
      if ok {
        if Printed(r.lo, r.width) == Printed(r.lo, |suffix|) {
          RewidthKeepsHosts(r, w);
        }
        offset, r' := hn.num - r.lo, r.(width := w);
      }
    }
  }

  lemma {:induction false} EqualPrefix(r: Range, hn: Hostname)
    requires r.Ok() && !r.single && hn.Valid() && hn.suffix.Some? && hn.prefix == r.prefix
    ensures forall k :: Named(r, k, hn.hostname) <==>
                          0 <= k < r.Count() && hn.num == r.lo + k
                          && WidthEquiv(r.lo, r.width, hn.num, |hn.suffix.value|).0
  {
    forall k | 0 <= k < r.Count()
      ensures Named(r, k, hn.hostname) <==>
                hn.num == r.lo + k && WidthEquiv(r.lo, r.width, hn.num, |hn.suffix.value|).0
    {
      SuffixMatch(r, hn.suffix.value, k);
      assert (r.prefix + Format(r.lo + k, r.width))[|r.prefix|..] == Format(r.lo + k, r.width);
      assert (r.prefix + hn.suffix.value)[|r.prefix|..] == hn.suffix.value;
    }
  }

  lemma {:induction false} ValueOfTail(s: string)
    requires AllDigits(s) && |s| > 0
    ensures AllDigits(s[1..]) && Value(s[1..]) <= Value(s)
  {
    if |s| > 1 {
      var n := |s| - 1;
      ValueOfTail(s[..n]);
      assert s[1..][..n - 1] == s[..n][1..];
    }
  }

  lemma {:induction false} NamedNests(r: Range, k: int, hn: Hostname)
    requires r.Ok() && !r.single && hn.Valid() && hn.suffix.Some? && |hn.prefix| <= |r.prefix|
    ensures Named(r, k, hn.hostname) ==> hn.prefix <= r.prefix
  {
    if Named(r, k, hn.hostname) {
      assert r.prefix == hn.hostname[..|r.prefix|];
      assert hn.prefix == r.prefix[..|hn.prefix|];
    }
  }

  lemma {:induction false} OtherPrefix(r: Range, hn: Hostname)
    requires r.Ok() && !r.single && hn.Valid() && hn.suffix.Some? && !(hn.prefix <= r.prefix)
    ensures |hn.prefix| <= |r.prefix| ==> forall k :: !Named(r, k, hn.hostname)
  {
    if |hn.prefix| <= |r.prefix| {
      forall k
        ensures !Named(r, k, hn.hostname)
      {
        NamedNests(r, k, hn);
      }
    }
  }

  lemma {:induction false} NamedContinues(r: Range, k: int, hn: Hostname)
    requires r.Ok() && !r.single && hn.Valid() && hn.suffix.Some? && hn.prefix < r.prefix
    ensures Named(r, k, hn.hostname) ==>
              |hn.suffix.value| > 1 && IsDigit(r.prefix[|r.prefix| - 1]) && r.prefix[|hn.prefix|] == hn.suffix.value[0]
  {
    var m, n, s := |hn.prefix|, |r.prefix|, hn.suffix.value;
    if Named(r, k, hn.hostname) {
      assert hn.hostname[m] == s[0] && hn.hostname[m] == r.prefix[m];
      assert hn.hostname[n - 1] == s[n - 1 - m] && hn.hostname[n - 1] == r.prefix[n - 1];
    }
  }

  lemma {:induction false} ShorterPrefix(r: Range, hn: Hostname)
    requires r.Ok() && !r.single && hn.Valid() && hn.suffix.Some? && hn.prefix < r.prefix
    requires !(|hn.suffix.value| > 1 && IsDigit(r.prefix[|r.prefix| - 1])
               && r.prefix[|hn.prefix|] == hn.suffix.value[0])
    ensures forall k :: !Named(r, k, hn.hostname)
  {
    forall k
      ensures !Named(r, k, hn.hostname)
    {
      NamedContinues(r, k, hn);
    }
  }

  // ---- the whole list ----

  /** A host the search can see: any single host, and numbered ones when the name's number is small enough. */
  ghost predicate Seen(h: Host, name: string) {
    Name(h) == name && (h.Single? || Searchable(name))
  }

  lemma {:induction false} SeenIsNamed(r: Range, k: nat, name: string)
    requires r.Ok() && k < r.Count()
    ensures Seen(HostsOf(r)[k], name) <==> Named(r, k, name) && (r.single || Searchable(name))
  {
    ShownInRange(r, k);
    if !r.single {
      RunAt(r.prefix, r.width, r.lo, r.hi, k);
    }
  }

  /** Digits at the end of a name belong to its digit tail. */
  lemma {:induction false} DigitTailLongest(s: string, t: string)
    requires |t| <= |s| && s[|s| - |t|..] == t && AllDigits(t)
    ensures |DigitTail(s)| >= |t|
  {
    if t != "" {
      var n, m := |s| - 1, |t| - 1;
      assert s[n] == t[m];
      assert s[..n][n - m..] == t[..m];
      DigitTailLongest(s[..n], t[..m]);
    }
  }

  lemma {:induction false} NamedTail(r: Range, k: nat, name: string)
    requires r.Ok() && !r.single && Named(r, k, name)
    ensures DigitTail(name) != "" && |name| - |DigitTail(name)| <= |r.prefix|
  {
    var t := Format(r.lo + k, r.width);
    assert name[|name| - |t|..] == t;
    DigitTailLongest(name, t);
  }

  lemma {:induction false} NamedOnce(r: Range, j: nat, k: nat, name: string)
    requires r.Ok() && Named(r, j, name) && Named(r, k, name)
    ensures j == k
  {
    if !r.single {
      assert name[|r.prefix|..] == Format(r.lo + j, r.width) == Format(r.lo + k, r.width);
      ValueOfFormat(r.lo + j, r.width);
      ValueOfFormat(r.lo + k, r.width);
    }
  }

  ghost function Sees(name: string): Host -> bool { h => Seen(h, name) }

  /** The first place where the search sees the name, or -1. */
  ghost function Search(hs: seq<Host>, name: string): (k: int)
    ensures -1 <= k < |hs|
  {
    FirstTo(hs, Sees(name), |hs|)
  }

  /** Searches one range for a freshly split name. */
  method FindInRange(r: Range, hn: Hostname) returns (offset: int, r': Range)
    requires r.Ok() && hn.Fresh()
    ensures SameHosts(r, r') && offset == Search(HostsOf(r), hn.hostname)
  {
    offset, r' := HnWithin(r, hn);
    forall k | 0 <= k < r.Count()
      ensures Seen(HostsOf(r)[k], hn.hostname) <==> k == offset
    {
      SeenIsNamed(r, k, hn.hostname);
      if Named(r, k, hn.hostname) {
        if !r.single {
          NamedTail(r, k, hn.hostname);
        }
        if offset >= 0 {
          NamedOnce(r, offset, k, hn.hostname);
        }
      }
    }
    FirstUnique(HostsOf(r), Sees(hn.hostname), offset);
  }

  lemma {:induction false} StoreOne(rs: seq<Range>, i: nat, r: Range)
    requires i < |rs| && AllOk(rs) && SameHosts(rs[i], r)
    ensures AllOk(rs[i := r]) && Expand(rs[i := r]) == Expand(rs)
    ensures ExpandTo(rs[i := r], i + 1) == ExpandTo(rs, i) + HostsOf(rs[i])
  {
    ExpandPointwise(rs, rs[i := r], |rs|);
    ExpandPointwise(rs, rs[i := r], i);
  }

  /** How the answer for range i, stored back as r', extends the answer for the ranges before it. */
  lemma {:induction false} SearchedRange(rs: seq<Range>, i: nat, r': Range, name: string)
    requires i < |rs| && AllOk(rs) && SameHosts(rs[i], r') && Search(ExpandTo(rs, i), name) == -1
    ensures AllOk(rs[i := r']) && Expand(rs[i := r']) == Expand(rs)
    ensures |ExpandTo(rs[i := r'], i + 1)| == |ExpandTo(rs, i)| + rs[i].Count()
    ensures var offset := Search(HostsOf(rs[i]), name);
            if offset >= 0 then Search(Expand(rs), name) == |ExpandTo(rs, i)| + offset
            else Search(ExpandTo(rs[i := r'], i + 1), name) == -1
  {
    StoreOne(rs, i, r');
    ExpandSplit(rs, i);
    FirstOfThree(ExpandTo(rs, i), HostsOf(rs[i]), Expand(rs[i + 1..]), Sees(name));
  }

  /** Searches range i, storing back its width. */
  method FindAt(hl: Hostlist, i: nat, hn: Hostname) returns (offset: int, r': Range)
    requires hl.Valid() && AllOk(hl.Ranges()) && i < hl.nranges && hn.Fresh()
    modifies hl.hr
    ensures SameHosts(old(hl.Ranges())[i], r') && hl.Ranges() == old(hl.Ranges())[i := r']
    ensures offset == Search(HostsOf(old(hl.Ranges())[i]), hn.hostname)
  {
    offset, r' := FindInRange(hl.hr[i], hn);
    hl.Store(i, r');
  }

  /** The state of the scan before range i. */
  ghost predicate Scanned(rs: seq<Range>, i: nat, count: int, hs: seq<Host>, name: string) {
    && i <= |rs| && AllOk(rs) && Expand(rs) == hs
    && count == |ExpandTo(rs, i)|
    && Search(ExpandTo(rs, i), name) == -1
  }

  lemma {:induction false} ScanStep(rs: seq<Range>, i: nat, count: int, hs: seq<Host>, r': Range, name: string)
    requires i < |rs| && Scanned(rs, i, count, hs, name) && SameHosts(rs[i], r')
    ensures AllOk(rs[i := r']) && Expand(rs[i := r']) == hs
    ensures var offset := Search(HostsOf(rs[i]), name);
            if offset >= 0 then Search(hs, name) == count + offset
            else Scanned(rs[i := r'], i + 1, count + rs[i].Count(), hs, name)
  {
    SearchedRange(rs, i, r', name);
  }

  /** One turn of the scan: the host's position, or -1 and the next count. */
  method Scan(hl: Hostlist, i: nat, count: int, hn: Hostname, ghost hs: seq<Host>) returns (ret: int, count': int)
    requires hl.Sound() && i < hl.nranges && Scanned(hl.Ranges(), i, count, hs, hn.hostname) && hn.Fresh()
    modifies hl.hr
    ensures hl.Sound() && hl.Contents() == hs
    ensures if ret >= 0 then ret == Search(hs, hn.hostname) else Scanned(hl.Ranges(), i + 1, count', hs, hn.hostname)
  {
    ghost var rs := hl.Ranges();
    count' := count + hl.hr[i].Count();
    var offset, r' := FindAt(hl, i, hn);
    ScanStep(rs, i, count, hs, r', hn.hostname);
    ret := if offset >= 0 then count + offset else -1;
  }

  lemma {:induction false} ScanEnd(rs: seq<Range>, count: int, hs: seq<Host>, name: string)
    requires Scanned(rs, |rs|, count, hs, name)
    ensures Search(hs, name) == -1
  {}

  /** hostlist_find: may rewrite widths, never a host. */
  method Find(hl: Hostlist, hostname: string) returns (ret: int)
    requires hl.Sound()
    modifies hl.hr
    ensures hl.Sound() && hl.Contents() == old(hl.Contents())
    ensures ret == Search(hl.Contents(), hostname)
  {
    var hn := CreateHostname(hostname);
    ghost var hs := hl.Contents();
    var i, count := 0, 0;
    while i < hl.nranges
      modifies hl.hr
      invariant hl.Sound() && hl.Contents() == hs
      invariant i <= hl.nranges && Scanned(hl.Ranges(), i, count, hs, hostname)
    {
      ret, count := Scan(hl, i, count, hn, hs);
      if ret >= 0 {
        return;
      }
      i := i + 1;
    }
    ScanEnd(hl.Ranges(), count, hs, hostname);
    ret := -1;
  }

  ghost function Bears(name: string): Host -> bool { h => Name(h) == name }

  /** The first host that has the name, or -1: what a caller expects of a search. */
  ghost function Index(hs: seq<Host>, name: string): (k: int)
    ensures -1 <= k < |hs|
  {
    FirstTo(hs, Bears(name), |hs|)
  }

  lemma {:induction false} IndexIsFirst(hs: seq<Host>, name: string)
    ensures var k := Index(hs, name);
            && (k >= 0 ==> Name(hs[k]) == name)
            && (forall j :: 0 <= j < (if k >= 0 then k else |hs|) ==> Name(hs[j]) != name)
  {
    FirstIsFirst(hs, Bears(name), |hs|);
    assert forall h :: Bears(name)(h) <==> Name(h) == name;
  }

  /**
   * The search answers with the first host of that name exactly when the name's trailing number is small enough to
   * be split off, or the first match (if any) is a bare name.
   */
  lemma {:induction false} FindsFirst(hs: seq<Host>, name: string)
    ensures Search(hs, name) == Index(hs, name) <==>
              Value(DigitTail(name)) <= 33554432 || Index(hs, name) == -1 || hs[Index(hs, name)].Single?
  {
    FirstAgree(hs, Sees(name), Bears(name), |hs|);
    IndexIsFirst(hs, name);
  }

  /** The one host that a search cannot see under this name: its number is split off the name in full. */
  lemma {:induction false} NotSeen(name: string)
    requires !Searchable(name)
    ensures var t := DigitTail(name);
            var h := Numbered(name[..|name| - |t|], Value(t), |t|);
            Name(h) == name && Search([h], name) == -1 && Index([h], name) == 0
  {
    var t := DigitTail(name);
    var h := Numbered(name[..|name| - |t|], Value(t), |t|);
    NumeralOfValue(t);
    assert name == name[..|name| - |t|] + t;
    IndexIsFirst([h], name);
    assert Name([h][0]) == name;
    FindsFirst([h], name);
  }

  /** The search finds the first host of a name in every list exactly when the name's trailing number is small. */
  lemma {:induction false} AlwaysFindsFirst(name: string)
    ensures (forall hs :: Search(hs, name) == Index(hs, name)) <==> Value(DigitTail(name)) <= 33554432
  {
    if Searchable(name) {
      forall hs
        ensures Search(hs, name) == Index(hs, name)
      {
        FindsFirst(hs, name);
      }
    } else {
      NotSeen(name);
    }
  }

  /** A name of one letter and digits: its digit tail, and the host it is the name of. */
  lemma {:induction false} OneLetter(digits: string, v: nat)
    requires AllDigits(digits) && digits != "" && Value(digits) == v
    ensures DigitTail("f" + digits) == digits && Name(Numbered("f", v, |digits|)) == "f" + digits
    ensures Index([Numbered("f", v, |digits|)], "f" + digits) == 0
  {
    var name, h := "f" + digits, Numbered("f", v, |digits|);
    assert name[1..] == digits;
    DigitTailIs(name, 0);
    NumeralOfValue(digits);
    IndexIsFirst([h], name);
    assert Name([h][0]) == name;
  }

  /** 2^25 is not too large: f33554432 is found in the list that f[33554432] is. */
  lemma {:induction false} FindsLargestNumber()
    ensures Name(Numbered("f", 33554432, 8)) == "f33554432"
    ensures Search([Numbered("f", 33554432, 8)], "f33554432") == 0
  {
    LargeValues();
    OneLetter("33554432", 33554432);
    assert "f" + "33554432" == "f33554432";
    FindsFirst([Numbered("f", 33554432, 8)], "f33554432");
  }

  /** 2^25 + 1 is too large: f33554433 is not found in the list that f[33554433] is. */
  lemma {:induction false} MissesLargeNumber()
    ensures Name(Numbered("f", 33554433, 8)) == "f33554433"
    ensures Index([Numbered("f", 33554433, 8)], "f33554433") == 0
    ensures Search([Numbered("f", 33554433, 8)], "f33554433") == -1
  {
    LargeValues();
    OneLetter("33554433", 33554433);
    assert "f" + "33554433" == "f33554433";
    FindsFirst([Numbered("f", 33554433, 8)], "f33554433");
  }

  lemma {:induction false} LargeValues()
    ensures AllDigits("33554432") && Value("33554432") == 33554432
    ensures AllDigits("33554433") && Value("33554433") == 33554433
  {
    ValueSnoc("", "3", 0, '3');
    ValueSnoc("3", "33", 3, '3');
    ValueSnoc("33", "335", 33, '5');
    ValueSnoc("335", "3355", 335, '5');
    ValueSnoc("3355", "33554", 3355, '4');
    ValueSnoc("33554", "335544", 33554, '4');
    ValueSnoc("335544", "3355443", 335544, '3');
    ValueSnoc("3355443", "33554432", 3355443, '2');
    ValueSnoc("3355443", "33554433", 3355443, '3');
  }

  lemma {:induction false} ValueSnoc(s: string, s': string, v: nat, c: char)
    requires AllDigits(s) && Value(s) == v && IsDigit(c) && s' == s + [c]
    ensures AllDigits(s') && Value(s') == 10 * v + (c - '0') as nat
  {
    assert s'[..|s|] == s;
  }
}
