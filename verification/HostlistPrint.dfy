/** hostlist_ranged_string: the bracketed text of a list, written into a buffer of limited size. */
module HostlistPrint {
  import opened Decimal
  import opened Hosts
  import opened Hostranges
  import opened Hostlists

  // ---- the text ----

  /** The numbers of a range: "lo" or "lo-hi"; nothing for a single host. */
  function Num(r: Range): string {
    if r.single then ""
    else Format(r.lo, r.width) + if r.lo < r.hi then "-" + Format(r.hi, r.width) else ""
  }

  predicate BracketNeeded(rs: seq<Range>, i: nat)
    requires i < |rs|
  {
    rs[i].Count() > 1 || (i + 1 < |rs| && WithinRange(rs[i], rs[i + 1]))
  }

  /** One past the last range of the bracket that the range before j belongs to. */
  function GroupEnd(rs: seq<Range>, j: nat): (e: nat)
    requires 0 < j <= |rs|
    ensures j <= e <= |rs|
    decreases |rs| - j
  {
    if j < |rs| && WithinRange(rs[j], rs[j - 1]) then GroupEnd(rs, j + 1) else j
  }

  /** The numbers of ranges i to j - 1, separated by commas. */
  function Nums(rs: seq<Range>, i: nat, j: nat): string
    requires i < j <= |rs|
  {
    if j == i + 1 then Num(rs[i]) else Nums(rs, i, j - 1) + "," + Num(rs[j - 1])
  }

  function GroupText(rs: seq<Range>, i: nat): string
    requires i < |rs|
  {
    rs[i].prefix + if BracketNeeded(rs, i) then "[" + Nums(rs, i, GroupEnd(rs, i + 1)) + "]" else Num(rs[i])
  }

  /** The text from range i on, given the text before it; no comma while that is still empty. */
  function TextFrom(rs: seq<Range>, i: nat, acc: string): string
    requires i <= |rs|
    decreases |rs| - i
  {
    if i == |rs| then acc
    else
      var e := GroupEnd(rs, i + 1);
      var acc' := acc + GroupText(rs, i);
      TextFrom(rs, e, if acc' != "" && e < |rs| then acc' + "," else acc')
  }

  /** The whole text. */
  function Text(rs: seq<Range>): string { TextFrom(rs, 0, "") }

  lemma {:induction false} TextGrows(rs: seq<Range>, i: nat, acc: string)
    requires i <= |rs|
    ensures |acc| <= |TextFrom(rs, i, acc)|
    decreases |rs| - i
  {
    if i < |rs| {
      var e := GroupEnd(rs, i + 1);
      var acc' := acc + GroupText(rs, i);
      TextGrows(rs, e, if acc' != "" && e < |rs| then acc' + "," else acc');
    }
  }

  // ---- the buffer ----

  /** Everything outside buf[off..off + n] is as it was. */
  twostate predicate Outside(buf: array<char>, off: nat, n: nat)
    requires off + n <= buf.Length
    reads buf
  {
    forall k :: 0 <= k < buf.Length && !(off <= k < off + n) ==> buf[k] == old(buf[k])
  }

  /** snprintf: at most n - 1 characters and a terminator; the full length is returned. */
  method Snprintf(buf: array<char>, off: nat, n: nat, text: string) returns (len: nat)
    requires off + n <= buf.Length
    modifies buf
    ensures len == |text| && Outside(buf, off, n)
    ensures n > 0 ==>
              var w := if |text| < n then |text| else n - 1;
              buf[off..off + w] == text[..w] && buf[off + w] == '\0'
  {
    len := |text|;
    var i := 0;
    while i < |text| && i + 1 < n
      invariant 0 <= i <= |text| && (n == 0 || i < n)
      invariant Outside(buf, off, n)
      invariant n > 0 ==> buf[off..off + i] == text[..i]
    {
      buf[off + i] := text[i];
      i := i + 1;
    }
    if n > 0 {
      buf[off + i] := '\0';
    }
  }

  /** buf[off..] begins with t, within n characters. */
  predicate Holds(buf: array<char>, off: nat, n: nat, t: string)
    reads buf
  {
    off + n <= buf.Length && |t| <= n && buf[off..off + |t|] == t
  }

  /** snprintf behind text t. */
  method AppendText(text: string, buf: array<char>, off: nat, n: nat, len: nat, ghost t: string) returns (len': nat)
    requires Holds(buf, off, n, t) && len == |t|
    modifies buf
    ensures Outside(buf, off, n)
    ensures if |t| + |text| < n then len' == |t| + |text| && Holds(buf, off, n, t + text) else len' >= n
  {
    var m := Snprintf(buf, off + len, n - len, text);
    len' := len + m;
    assert buf[off..off + len] == t;
    if len' < n {
      assert buf[off..off + len'] == buf[off..off + len] + buf[off + len..off + len'];
    }
  }

  /** The numbers of a range at buf[off..]: exact when they fit, otherwise a length of at least n. */
  method Numstr(r: Range, buf: array<char>, off: nat, n: nat) returns (len: nat)
    requires off + n <= buf.Length
    modifies buf
    ensures Outside(buf, off, n)
    ensures if |Num(r)| < n then len == |Num(r)| && Holds(buf, off, n, Num(r)) else len >= n
  {
    if r.single || n == 0 {
      return 0;
    }
    var low := Format(r.lo, r.width);
    len := AppendText(low, buf, off, n, 0, "");
    assert "" + low == low;
    if len < n && r.lo < r.hi {
      assert Num(r) == low + ("-" + Format(r.hi, r.width));
      len := AppendText("-" + Format(r.hi, r.width), buf, off, n, len, low);
    }
  }

  /** Adds the numbers of r after text t (still shorter than n). */
  method AppendNum(r: Range, buf: array<char>, off: nat, n: nat, len: nat, ghost t: string) returns (len': nat)
    requires Holds(buf, off, n, t) && len == |t|
    modifies buf
    ensures Outside(buf, off, n)
    ensures if |t| + |Num(r)| < n then len' == |t| + |Num(r)| && Holds(buf, off, n, t + Num(r)) else len' >= n
  {
    var m := Numstr(r, buf, off + len, n - len);
    len' := len + m;
    assert buf[off..off + len] == t;
    if len' < n {
      assert buf[off..off + len'] == buf[off..off + len] + buf[off + len..off + len'];
    }
  }

  /** Adds one character after text t. */
  method AppendChar(c: char, buf: array<char>, off: nat, n: nat, len: nat, ghost t: string)
    requires Holds(buf, off, n, t) && len == |t| < n
    modifies buf
    ensures Outside(buf, off, n) && Holds(buf, off, n, t + [c])
  {
    buf[off + len] := c;
    assert buf[off..off + len + 1] == t + [c];
  }

  /** Replaces the last character of the text by c. */
  method ReplaceLast(c: char, buf: array<char>, off: nat, n: nat, ghost t: string, d: char, len: nat)
    requires Holds(buf, off, n, t + [d]) && len == |t| + 1
    modifies buf
    ensures Outside(buf, off, n) && Holds(buf, off, n, t + [c])
  {
    assert buf[off..off + |t|] == t by {
      assert buf[off..off + |t|] == buf[off..off + |t| + 1][..|t|];
    }
    buf[off + len - 1] := c;
    assert buf[off..off + len] == t + [c];
  }

  /** Sum of f over ranges i to j - 1, plus one for each comma between. */
  ghost function Total(f: Range -> nat, rs: seq<Range>, i: nat, j: nat): nat
    requires i < j <= |rs|
  {
    if j == i + 1 then f(rs[i]) else Total(f, rs, i, j - 1) + 1 + f(rs[j - 1])
  }

  lemma {:induction false} TotalGrows(f: Range -> nat, rs: seq<Range>, i: nat, j: nat, k: nat)
    requires i < j <= k <= |rs|
    ensures Total(f, rs, i, j) + (if j < k then 1 else 0) <= Total(f, rs, i, k)
  {
    if j < k {
      TotalGrows(f, rs, i, j, k - 1);
    }
  }

  lemma {:induction false} NumsTotal(f: Range -> nat, rs: seq<Range>, i: nat, j: nat)
    requires i < j <= |rs| && forall r :: f(r) == |Num(r)|
    ensures |Nums(rs, i, j)| == Total(f, rs, i, j)
  {
    NumsMore(rs, i, j);
    if i + 1 < j {
      NumsTotal(f, rs, i, j - 1);
    }
  }

  lemma {:induction false} NumsMore(rs: seq<Range>, i: nat, j: nat)
    requires i < j <= |rs|
    ensures j == i + 1 ==> |Nums(rs, i, j)| == |Num(rs[i])|
    ensures j > i + 1 ==> |Nums(rs, i, j)| == |Nums(rs, i, j - 1)| + 1 + |Num(rs[j - 1])|
  {}

  lemma {:induction false} NumsGrow(rs: seq<Range>, i: nat, j: nat, k: nat)
    requires i < j <= k <= |rs|
    ensures |Nums(rs, i, j)| + (if j < k then 1 else 0) <= |Nums(rs, i, k)|
  {
    var f := (r: Range) => |Num(r)|;
    NumsTotal(f, rs, i, j);
    NumsTotal(f, rs, i, k);
    TotalGrows(f, rs, i, j, k);
  }

  /** Without a bracket the group is one range. */
  lemma {:induction false} NoBracketAlone(rs: seq<Range>, i: nat)
    requires i < |rs| && !BracketNeeded(rs, i)
    ensures GroupEnd(rs, i + 1) == i + 1
  {
    if i + 1 < |rs| {
      SamePrefix(rs[i], rs[i + 1]);
      SamePrefix(rs[i + 1], rs[i]);
    }
  }

  /** A range's numbers and a comma after text t; stops short when the numbers do not fit. */
  method AppendNumAndComma(r: Range, buf: array<char>, off: nat, n: nat, len: nat, ghost t: string)
    returns (len': nat, fits: bool)
    requires Holds(buf, off, n, t) && len == |t|
    modifies buf
    ensures Outside(buf, off, n) && (fits <==> |t| + |Num(r)| < n)
    ensures if fits then len' == |t| + |Num(r)| + 1 && Holds(buf, off, n, t + Num(r) + ",") else len' >= n
  {
    len' := AppendNum(r, buf, off, n, len, t);
    fits := len' < n;
    if fits {
      AppendChar(',', buf, off, n, len', t + Num(r));
      len' := len' + 1;
    }
  }

  /** The text written when the loop reaches range i. */
  ghost function Progress(head: string, rs: seq<Range>, start: nat, i: nat): string
    requires start <= i <= |rs|
  {
    if i == start then head else head + Nums(rs, start, i) + ","
  }

  lemma {:induction false} ProgressStep(head: string, rs: seq<Range>, start: nat, i: nat)
    requires start <= i < |rs|
    ensures Progress(head, rs, start, i) + Num(rs[i]) + "," == Progress(head, rs, start, i + 1)
    ensures |Progress(head, rs, start, i)| + |Num(rs[i])| + 1 == |Progress(head, rs, start, i + 1)|
  {
    if i > start {
      Regroup(head, Nums(rs, start, i), ",", Num(rs[i]));
    }
  }

  lemma {:induction false} Regroup(a: string, b: string, c: string, d: string)
    ensures (a + b + c) + d == a + (b + c + d)
  {}

  lemma {:induction false} ProgressGrows(head: string, rs: seq<Range>, start: nat, i: nat, e: nat)
    requires start < i <= e <= |rs|
    ensures |Progress(head, rs, start, i)| <= |Progress(head, rs, start, e)|
  {
    NumsGrow(rs, start, i, e);
  }

  /** One turn of the loop inside a bracket. */
  method GetNumber(r: Range, ghost rs: seq<Range>, ghost start: nat, ghost i: nat, n: nat, buf: array<char>, off: nat,
                   len: nat, ghost head: string, ghost t: string)
    returns (len': nat, fits: bool, ghost t': string)
    requires start <= i < |rs| && r == rs[i]
    requires Holds(buf, off, n, t) && len == |t| && t == Progress(head, rs, start, i)
    modifies buf
    ensures Outside(buf, off, n) && t' == Progress(head, rs, start, i + 1)
    ensures if fits then len' == |t'| && Holds(buf, off, n, t') else len' >= n && |t'| > n
  {
    ProgressStep(head, rs, start, i);
    len', fits := AppendNumAndComma(r, buf, off, n, len, t);
    t' := t + Num(r) + ",";
  }

  /** Does the group go on with range i? */
  method GoesOn(hl: Hostlist, i: nat, ghost rs: seq<Range>) returns (more: bool)
    requires hl.Valid() && hl.Ranges() == rs && 0 < i <= |rs|
    ensures more ==> i < |rs| && GroupEnd(rs, i) == GroupEnd(rs, i + 1)
    ensures !more ==> GroupEnd(rs, i) == i
  {
    more := i < hl.nranges && WithinRange(hl.hr[i], hl.hr[i - 1]);
  }

  /** The loop inside a bracket: every range's numbers, each followed by a comma. */
  method GetNumbers(hl: Hostlist, start: nat, n: nat, buf: array<char>, off: nat, len0: nat, ghost head: string)
    returns (len: nat, i: nat)
    requires hl.Valid() && start < hl.nranges && Holds(buf, off, n, head) && len0 == |head|
    modifies buf
    ensures Outside(buf, off, n) && start < i <= hl.nranges
    ensures var e := GroupEnd(hl.Ranges(), start + 1);
            var t := Progress(head, hl.Ranges(), start, e);
            if |t| <= n then len == |t| && Holds(buf, off, n, t) && i == e else len >= n
  {
    ghost var rs := hl.Ranges();
    ghost var e := GroupEnd(rs, start + 1);
    ghost var t := head;
    i, len := start, len0;
    while true
      invariant hl.Ranges() == rs && start <= i < e && e == GroupEnd(rs, i + 1)
      invariant Outside(buf, off, n) && Holds(buf, off, n, t) && len == |t|
      invariant t == Progress(head, rs, start, i)
      decreases e - i
    {
      var fits, more;
      len, fits, t := GetNumber(hl.hr[i], rs, start, i, n, buf, off, len, head, t);
      assert hl.Ranges() == rs;
      if !fits {
        ProgressGrows(head, rs, start, i + 1, e);
        assert |Progress(head, rs, start, e)| > n;
        return len, i + 1;
      }
      more := GoesOn(hl, i + 1, rs);
      i := i + 1;
      if !more {
        return;
      }
    }
  }

  /** A group in brackets, once its prefix is written and leaves room. */
  method GetBracket(hl: Hostlist, start: nat, n: nat, buf: array<char>, off: nat, len0: nat, ghost prefix: string)
    returns (len: nat, i: nat)
    requires hl.Valid() && start < hl.nranges && Holds(buf, off, n, prefix) && len0 == |prefix| < n
    modifies buf
    ensures Outside(buf, off, n) && start < i <= hl.nranges
    ensures var e := GroupEnd(hl.Ranges(), start + 1);
            var t := prefix + "[" + Nums(hl.Ranges(), start, e) + "]";
            if |t| < n then len == |t| && Holds(buf, off, n, t) && i == e else len >= n
  {
    ghost var head := prefix + "[";
    ghost var nums := Nums(hl.Ranges(), start, GroupEnd(hl.Ranges(), start + 1));
    AppendChar('[', buf, off, n, len0, prefix);
    len, i := GetNumbers(hl, start, n, buf, off, len0 + 1, head);
    if len < n {
      ReplaceLast(']', buf, off, n, head + nums, ',', len);
      buf[off + len] := '\0';
    }
  }

  lemma {:induction false} GroupTextIs(rs: seq<Range>, i: nat)
    requires i < |rs|
    ensures |rs[i].prefix| <= |GroupText(rs, i)|
    ensures BracketNeeded(rs, i) ==>
              GroupText(rs, i) == rs[i].prefix + "[" + Nums(rs, i, GroupEnd(rs, i + 1)) + "]"
    ensures !BracketNeeded(rs, i) ==> GroupText(rs, i) == rs[i].prefix + Num(rs[i]) && GroupEnd(rs, i + 1) == i + 1
  {
    if BracketNeeded(rs, i) {
      Regroup(rs[i].prefix, "[", Nums(rs, i, GroupEnd(rs, i + 1)), "]");
    } else {
      NoBracketAlone(rs, i);
    }
  }

  /** The group behind its prefix. */
  method GetRest(hl: Hostlist, start: nat, n: nat, buf: array<char>, off: nat, len0: nat, bracket: bool)
    returns (len: nat, i: nat)
    requires hl.Valid() && start < hl.nranges && (bracket <==> BracketNeeded(hl.Ranges(), start))
    requires Holds(buf, off, n, hl.hr[start].prefix) && len0 == |hl.hr[start].prefix| < n
    modifies buf
    ensures Outside(buf, off, n) && start < i <= hl.nranges
    ensures var t := GroupText(hl.Ranges(), start);
            if |t| < n then len == |t| && Holds(buf, off, n, t) && i == GroupEnd(hl.Ranges(), start + 1)
            else len >= n
  {
    ghost var rs := hl.Ranges();
    GroupTextIs(rs, start);
    if bracket {
      len, i := GetBracket(hl, start, n, buf, off, len0, rs[start].prefix);
    } else {
      i := start + 1;
      len := AppendNum(hl.hr[start], buf, off, n, len0, rs[start].prefix);
    }
  }

  /** One bracketed list at buf[off..]: exact when it fits, otherwise a length of at least n. */
  method GetBracketedList(hl: Hostlist, start: nat, n: nat, buf: array<char>, off: nat) returns (len: nat, i: nat)
    requires hl.Valid() && start < hl.nranges && off + n <= buf.Length
    modifies buf
    ensures Outside(buf, off, n) && start < i <= hl.nranges
    ensures var t := GroupText(hl.Ranges(), start);
            if |t| < n then len == |t| && Holds(buf, off, n, t) && i == GroupEnd(hl.Ranges(), start + 1)
            else len >= n
  {
    var r := hl.hr[start];
    var bracket := r.Count() > 1 || (start + 1 < hl.nranges && WithinRange(r, hl.hr[start + 1]));
    len := Snprintf(buf, off, n, r.prefix);
    if len >= n {
      GroupTextIs(hl.Ranges(), start);
      len, i := n, start + 1;
    } else {
      len, i := GetRest(hl, start, n, buf, off, len, bracket);
    }
  }

  /** The text so far and the comma that separates it from the next group, if there is one. */
  lemma {:induction false} TextStep(rs: seq<Range>, i: nat, acc: string)
    requires i < |rs|
    ensures var e := GroupEnd(rs, i + 1);
            var acc' := acc + GroupText(rs, i);
            && TextFrom(rs, i, acc) == TextFrom(rs, e, if acc' != "" && e < |rs| then acc' + "," else acc')
            && |acc'| + (if acc' != "" && e < |rs| then 1 else 0) <= |TextFrom(rs, i, acc)|
  {
    var e := GroupEnd(rs, i + 1);
    var acc' := acc + GroupText(rs, i);
    TextGrows(rs, e, if acc' != "" && e < |rs| then acc' + "," else acc');
  }

  /** One more group after acc, and a comma when more groups follow. */
  method AppendGroup(hl: Hostlist, i: nat, n: nat, buf: array<char>, len: nat, ghost acc: string)
    returns (len': nat, i': nat, ghost acc': string)
    requires hl.Valid() && i < hl.nranges && Holds(buf, 0, n, acc) && len == |acc| < n
    modifies buf
    ensures Outside(buf, 0, n) && i < i' <= hl.nranges
    ensures len' < n ==> Holds(buf, 0, n, acc') && len' == |acc'|
    ensures len' < n ==> TextFrom(hl.Ranges(), i, acc) == TextFrom(hl.Ranges(), i', acc')
    ensures len' >= n ==> |TextFrom(hl.Ranges(), i, acc)| >= n
  {
    ghost var rs := hl.Ranges();
    TextStep(rs, i, acc);
    ghost var t := GroupText(rs, i);
    acc' := acc + t;
    len', i' := GetBracketedList(hl, i, n - len, buf, len);
    len' := len + len';
    if len' < n {
      assert buf[..len] == acc;
      assert buf[0..len'] == buf[..len] + buf[len..len'];
      if len' > 0 && i' < hl.nranges {
        AppendChar(',', buf, 0, n, len', acc');
        len', acc' := len' + 1, acc' + ",";
      }
    }
  }

  /** hostlist_ranged_string: the exact text, terminated, when it is shorter than n; otherwise -1, never past n. */
  method RangedString(hl: Hostlist, n: nat, buf: array<char>) returns (ret: int)
    requires hl.Valid() && n <= buf.Length
    modifies buf
    ensures Outside(buf, 0, n)
    ensures var t := Text(hl.Ranges());
            if |t| < n then ret == |t| && buf[..|t|] == t && buf[|t|] == '\0'
            else ret == -1 && (n > 0 ==> buf[n - 1] == '\0')
  {
    ghost var rs := hl.Ranges();
    ghost var acc := "";
    var i, len := 0, 0;
    while i < hl.nranges && len < n
      invariant 0 <= i <= hl.nranges && Outside(buf, 0, n)
      invariant len < n ==> Holds(buf, 0, n, acc) && len == |acc| && Text(rs) == TextFrom(rs, i, acc)
      invariant len >= n ==> |Text(rs)| >= n
      decreases hl.nranges - i
    {
      len, i, acc := AppendGroup(hl, i, n, buf, len, acc);
    }
    if len >= n {
      if n > 0 {
        buf[n - 1] := '\0';
      }
      ret := -1;
    } else {
      buf[len] := '\0';
      ret := len;
    }
  }
}
