/** CDATA sections as text: whole characters up to the first closing mark, with line ends as section 2.11 of XML 1.0
  * asks. */
module CdataText {
  import opened Bytes
  import opened Seqs
  import opened Cdata
  import opened CdataParser

  // ---- characters ----

  /** c is one whole character of the encoding. */
  predicate IsChar(e: Encoding, c: seq<byte>) {
    |c| > 0 &&
    match e.byteType(c[0])
    case BT_LEAD2 => |c| == 2 && !e.isInvalidChar(c)
    case BT_LEAD3 => |c| == 3 && !e.isInvalidChar(c)
    case BT_LEAD4 => |c| == 4 && !e.isInvalidChar(c)
    case BT_NONXML => false
    case BT_MALFORM => false
    case BT_TRAIL => false
    case _ => |c| == 1
  }

  /** No character begins at p, whatever comes later. */
  predicate NoCharAt(e: Encoding, s: seq<byte>, p: nat) {
    p < |s| &&
    match e.byteType(s[p])
    case BT_LEAD2 => p + 2 <= |s| && e.isInvalidChar(s[p..p + 2])
    case BT_LEAD3 => p + 3 <= |s| && e.isInvalidChar(s[p..p + 3])
    case BT_LEAD4 => p + 4 <= |s| && e.isInvalidChar(s[p..p + 4])
    case BT_NONXML => true
    case BT_MALFORM => true
    case BT_TRAIL => true
    case _ => false
  }

  /** w is the beginning of a multi-byte character. */
  predicate CutChar(e: Encoding, w: seq<byte>) {
    w != [] &&
    match e.byteType(w[0])
    case BT_LEAD2 => |w| < 2
    case BT_LEAD3 => |w| < 3
    case BT_LEAD4 => |w| < 4
    case _ => false
  }

  /** The closing mark, "]]>", is at p. */
  predicate MarkAt(s: seq<byte>, p: nat) { p + 3 <= |s| && s[p] == 0x5D && s[p + 1] == 0x5D && s[p + 2] == 0x3E }

  ghost predicate Chars(e: Encoding, cs: seq<seq<byte>>) { forall k :: 0 <= k < |cs| ==> IsChar(e, cs[k]) }

  function Flat(cs: seq<seq<byte>>): seq<byte> { if cs == [] then [] else cs[0] + Flat(cs[1..]) }

  /** The bytes from p on are the characters cs, and at none of them is a closing mark. */
  ghost predicate Spells(s: seq<byte>, p: nat, cs: seq<seq<byte>>)
    decreases |cs|
  {
    cs == [] || (p + |cs[0]| <= |s| && s[p..p + |cs[0]|] == cs[0] && !MarkAt(s, p) && Spells(s, p + |cs[0]|, cs[1..]))
  }

  /** A carriage return with a line feed behind it, and one without, are line feeds; everything else is as it is. */
  function LinesOf(cs: seq<seq<byte>>): seq<byte>
    decreases |cs|
  {
    if cs == [] then []
    else if cs[0] != [0x0D] then cs[0] + LinesOf(cs[1..])
    else [0x0A] + LinesOf(if |cs| > 1 && cs[1] == [0x0A] then cs[2..] else cs[1..])
  }

  // ---- what the tokenizer reads at one place ----

  /** s[p..q] are the characters of one unit, which delivers d. */
  ghost predicate OneUnit(e: Encoding, s: seq<byte>, p: nat, q: nat, d: seq<byte>) {
    p < q <= |s| && !MarkAt(s, p) &&
    if s[p] == 0x0D then p + 1 < |s| && q == (if s[p + 1] == 0x0A then p + 2 else p + 1) && d == [0x0A]
    else IsChar(e, s[p..q]) && d == s[p..q] && (s[p] == 0x5D ==> p + 1 < |s| && (s[p + 1] == 0x5D ==> p + 2 < |s|))
  }

  lemma {:induction false} UnitIsOne(e: Encoding, s: seq<byte>, p: nat)
    requires e.Valid() && p <= |s| && Goes(UnitAt(e, s, p))
    ensures var u := UnitAt(e, s, p); OneUnit(e, s, p, p + u.length, Output(s, p, u))
  {
    var u := UnitAt(e, s, p);
    assert s[p..p + u.length][0] == s[p];
    assert s[p] == 0x0A ==> s[p..p + 1] == [0x0A];
  }

  lemma {:induction false} OneIsUnit(e: Encoding, s: seq<byte>, p: nat, q: nat, d: seq<byte>)
    requires e.Valid() && OneUnit(e, s, p, q, d)
    ensures var u := UnitAt(e, s, p); Goes(u) && q == p + u.length && d == Output(s, p, u)
  {
    if s[p] != 0x0D {
      assert s[p..q][0] == s[p];
      assert s[p] == 0x0A ==> s[p..p + 1] == [0x0A];
    }
  }

  /** What stops the reading at q. */
  ghost predicate StopAt(e: Encoding, s: seq<byte>, q: nat, o: Outcome, data: seq<byte>) {
    q <= |s| &&
    match o
    case Closed(pos, d) => MarkAt(s, q) && pos == q + 3 && d == data
    case Bad(pos, d) => NoCharAt(e, s, q) && pos == q && d == data
    case Open(pos, d, splitChar) =>
      && pos == q && d == data && (splitChar <==> CutChar(e, s[q..]))
      && (splitChar || s[q..] in [[], [0x0D], [0x5D], [0x5D, 0x5D]])
  }

  lemma {:induction false} StopIs(e: Encoding, s: seq<byte>, q: nat, data: seq<byte>)
    requires e.Valid() && q <= |s| && !Goes(UnitAt(e, s, q))
    ensures StopAt(e, s, q, Stop(q, UnitAt(e, s, q), data), data)
  {
    var w := s[q..];
    if w != [] {
      assert w[0] == s[q];
    }
    if |w| == 1 {
      assert w == [s[q]];
    } else if |w| == 2 {
      assert w == [s[q], s[q + 1]];
    }
  }

  lemma {:induction false} StopsThere(e: Encoding, s: seq<byte>, q: nat)
    requires e.Valid() && q < |s| && (MarkAt(s, q) || NoCharAt(e, s, q))
    ensures UnitAt(e, s, q) == if MarkAt(s, q) then CloseMark else BadByte
  {}

  // ---- whatever is read is text ----

  lemma {:induction false} FlatCons(c: seq<byte>, cs: seq<seq<byte>>)
    ensures Flat([c] + cs) == c + Flat(cs)
  {
    assert ([c] + cs)[1..] == cs;
  }

  lemma {:induction false} SpellsCons(s: seq<byte>, p: nat, c: seq<byte>, cs: seq<seq<byte>>)
    requires p + |c| <= |s| && s[p..p + |c|] == c && !MarkAt(s, p) && Spells(s, p + |c|, cs)
    ensures Spells(s, p, [c] + cs)
  {
    assert ([c] + cs)[1..] == cs;
  }

  lemma {:induction false} LinesCons(c: seq<byte>, cs: seq<seq<byte>>)
    requires c == [0x0D] ==> cs == [] || cs[0] != [0x0A]
    ensures LinesOf([c] + cs) == (if c == [0x0D] then [0x0A] else c) + LinesOf(cs)
  {
    assert ([c] + cs)[1..] == cs;
  }

  lemma {:induction false} LinesPair(cs: seq<seq<byte>>)
    ensures LinesOf([[0x0D]] + ([[0x0A]] + cs)) == [0x0A] + LinesOf(cs)
  {
    assert ([[0x0D]] + ([[0x0A]] + cs))[2..] == cs;
  }

  /** Text that begins with the unit at p, given the text behind it. */
  lemma {:induction false} UnitText(e: Encoding, s: seq<byte>, p: nat, q: nat, d: seq<byte>, cs: seq<seq<byte>>)
    returns (all: seq<seq<byte>>)
    requires e.Valid() && OneUnit(e, s, p, q, d) && Chars(e, cs) && Spells(s, q, cs)
    ensures Chars(e, all) && Spells(s, p, all)
    ensures p + |Flat(all)| == q + |Flat(cs)| && LinesOf(all) == d + LinesOf(cs)
  {
    if s[p] != 0x0D {
      all := [s[p..q]] + cs;
      assert s[p..q][0] == s[p];
      FlatCons(s[p..q], cs);
      SpellsCons(s, p, s[p..q], cs);
      LinesCons(s[p..q], cs);
    } else if s[p + 1] != 0x0A {
      all := [[0x0D]] + cs;
      assert s[p..p + 1] == [0x0D];
      assert cs != [] ==> s[q..q + |cs[0]|][0] == s[q];
      FlatCons([0x0D], cs);
      SpellsCons(s, p, [0x0D], cs);
      LinesCons([0x0D], cs);
    } else {
      all := PairText(e, s, p, cs);
    }
  }

  lemma {:induction false} PairText(e: Encoding, s: seq<byte>, p: nat, cs: seq<seq<byte>>)
    returns (all: seq<seq<byte>>)
    requires e.Valid() && p + 2 <= |s| && s[p] == 0x0D && s[p + 1] == 0x0A && Chars(e, cs) && Spells(s, p + 2, cs)
    ensures Chars(e, all) && Spells(s, p, all)
    ensures p + |Flat(all)| == p + 2 + |Flat(cs)| && LinesOf(all) == [0x0A] + LinesOf(cs)
  {
    var tail := [[0x0A]] + cs;
    all := [[0x0D]] + tail;
    assert s[p..p + 1] == [0x0D] && s[p + 1..p + 2] == [0x0A];
    FlatCons([0x0A], cs);
    FlatCons([0x0D], tail);
    SpellsCons(s, p + 1, [0x0A], cs);
    SpellsCons(s, p, [0x0D], tail);
    LinesPair(cs);
  }

  lemma {:induction false} ReadOne(e: Encoding, s: seq<byte>, p: nat, data: seq<byte>)
    returns (q: nat, d: seq<byte>)
    requires e.Valid() && p <= |s| && Goes(UnitAt(e, s, p))
    ensures OneUnit(e, s, p, q, d) && Scan(e, s, p, data) == Scan(e, s, q, data + d)
  {
    var u := UnitAt(e, s, p);
    UnitIsOne(e, s, p);
    q, d := p + u.length, Output(s, p, u);
    ScanGoes(e, s, p, data, q, data + d);
  }

  /** The outcome o is that of reading the characters cs from p on, with the data read before. */
  ghost predicate Reads(e: Encoding, s: seq<byte>, p: nat, data: seq<byte>, o: Outcome, cs: seq<seq<byte>>) {
    Chars(e, cs) && Spells(s, p, cs) && StopAt(e, s, p + |Flat(cs)|, o, data + LinesOf(cs))
  }

  lemma {:induction false} ReadsOn(e: Encoding, s: seq<byte>, p: nat, q: nat, d: seq<byte>, data: seq<byte>, o: Outcome,
      cs: seq<seq<byte>>) returns (all: seq<seq<byte>>)
    requires e.Valid() && OneUnit(e, s, p, q, d) && Reads(e, s, q, data + d, o, cs)
    ensures Reads(e, s, p, data, o, all)
  {
    assert data + d + LinesOf(cs) == data + (d + LinesOf(cs));
    all := UnitText(e, s, p, q, d, cs);
  }

  lemma {:induction false} ReadsNothing(e: Encoding, s: seq<byte>, p: nat, data: seq<byte>)
    requires e.Valid() && p <= |s| && !Goes(UnitAt(e, s, p))
    ensures Reads(e, s, p, data, Scan(e, s, p, data), [])
  {
    ScanStops(e, s, p, data);
    StopIs(e, s, p, data);
    assert data + [] == data;
  }

  /** What a scan has read are whole characters without a closing mark, delivered with their line ends as line feeds. */
  lemma {:induction false} ScanReads(e: Encoding, s: seq<byte>, p: nat, data: seq<byte>) returns (cs: seq<seq<byte>>)
    requires e.Valid() && p <= |s|
    ensures Reads(e, s, p, data, Scan(e, s, p, data), cs)
    decreases |s| - p
  {
    if Goes(UnitAt(e, s, p)) {
      var q, d := ReadOne(e, s, p, data);
      cs := ScanReads(e, s, q, data + d);
      cs := ReadsOn(e, s, p, q, d, data, Scan(e, s, q, data + d), cs);
    } else {
      cs := [];
      ReadsNothing(e, s, p, data);
    }
  }

  // ---- all text is read ----

  /** The characters cs reach from p to q, where a closing mark is, or something that is no character. */
  ghost predicate Reach(e: Encoding, s: seq<byte>, p: nat, cs: seq<seq<byte>>, q: nat) {
    Chars(e, cs) && Spells(s, p, cs) && p + |Flat(cs)| == q < |s| && (MarkAt(s, q) || NoCharAt(e, s, q))
  }

  lemma {:induction false} SpellsStarts(s: seq<byte>, p: nat, cs: seq<seq<byte>>)
    requires Spells(s, p, cs) && cs != [] && cs[0] != []
    ensures p < p + |cs[0]| <= |s| && s[p] == cs[0][0] && Spells(s, p + |cs[0]|, cs[1..])
    ensures Flat(cs) == cs[0] + Flat(cs[1..])
  {
    assert s[p..p + |cs[0]|][0] == s[p];
  }

  lemma {:induction false} LineFeedAlone(e: Encoding, c: seq<byte>)
    requires e.Valid() && IsChar(e, c)
    ensures c[0] == 0x0A ==> c == [0x0A]
    ensures c[0] == 0x0D ==> c == [0x0D]
    ensures c[0] == 0x5D ==> |c| == 1
  {}

  /** The first characters of a text make a unit. */
  lemma {:induction false} TextUnit(e: Encoding, s: seq<byte>, p: nat, cs: seq<seq<byte>>, end: nat)
    returns (q: nat, d: seq<byte>, rest: seq<seq<byte>>)
    requires e.Valid() && Reach(e, s, p, cs, end) && cs != []
    ensures OneUnit(e, s, p, q, d) && |rest| < |cs| && Reach(e, s, q, rest, end)
    ensures LinesOf(cs) == d + LinesOf(rest)
  {
    SpellsStarts(s, p, cs);
    LineFeedAlone(e, cs[0]);
    if |cs| > 1 {
      assert cs[1..][0] == cs[1] && cs[1..][1..] == cs[2..];
      SpellsStarts(s, p + |cs[0]|, cs[1..]);
      LineFeedAlone(e, cs[1]);
    }
    if cs[0] == [0x0D] && |cs| > 1 && cs[1] == [0x0A] {
      q, d, rest := p + 2, [0x0A], cs[2..];
    } else {
      q, d, rest := p + |cs[0]|, if cs[0] == [0x0D] then [0x0A] else cs[0], cs[1..];
    }
  }

  lemma {:induction false} ScanUnit(e: Encoding, s: seq<byte>, p: nat, q: nat, d: seq<byte>, data: seq<byte>)
    requires e.Valid() && OneUnit(e, s, p, q, d)
    ensures Scan(e, s, p, data) == Scan(e, s, q, data + d)
  {
    OneIsUnit(e, s, p, q, d);
    ScanGoes(e, s, p, data, q, data + d);
  }

  lemma {:induction false} TextStep(e: Encoding, s: seq<byte>, p: nat, cs: seq<seq<byte>>, end: nat, data: seq<byte>)
    returns (q: nat, data': seq<byte>, rest: seq<seq<byte>>)
    requires e.Valid() && Reach(e, s, p, cs, end) && cs != []
    ensures |rest| < |cs| && Reach(e, s, q, rest, end) && q <= |s| && Scan(e, s, p, data) == Scan(e, s, q, data')
    ensures data + LinesOf(cs) == data' + LinesOf(rest)
  {
    var d;
    q, d, rest := TextUnit(e, s, p, cs, end);
    data' := data + d;
    ScanUnit(e, s, p, q, d, data);
    Assoc(data, d, LinesOf(rest));
  }

  /** Whole characters in front of a closing mark, or of something that is no character, are delivered. */
  lemma {:induction false} TextScans(e: Encoding, s: seq<byte>, p: nat, cs: seq<seq<byte>>, end: nat, data: seq<byte>)
    requires e.Valid() && Reach(e, s, p, cs, end)
    ensures Scan(e, s, p, data) == Scan(e, s, end, data + LinesOf(cs))
    decreases |cs|
  {
    if cs == [] {
      assert data + [] == data;
    } else {
      var q, data', rest := TextStep(e, s, p, cs, end, data);
      TextScans(e, s, q, rest, end, data');
    }
  }

  // ---- what a section is ----

  /** The bytes of a section up to its closing mark at q: whole characters, and no mark at any of them. */
  ghost predicate Section(e: Encoding, s: seq<byte>, cs: seq<seq<byte>>) {
    Chars(e, cs) && Spells(s, 0, cs) && |Flat(cs)| <= |s|
  }

  lemma {:induction false} SpellsFlat(s: seq<byte>, p: nat, cs: seq<seq<byte>>)
    requires Spells(s, p, cs) && p <= |s|
    ensures p + |Flat(cs)| <= |s| && s[p..p + |Flat(cs)|] == Flat(cs)
    decreases |cs|
  {
    if cs != [] {
      SpellsFlat(s, p + |cs[0]|, cs[1..]);
    }
  }

  /** The closing mark is at the end of the characters cs. */
  ghost predicate ClosesBehind(e: Encoding, s: seq<byte>, cs: seq<seq<byte>>, pos: nat, data: seq<byte>) {
    Section(e, s, cs) && MarkAt(s, |Flat(cs)|) && pos == |Flat(cs)| + 3 && data == LinesOf(cs)
  }

  /**
   * A section is closed exactly by the first closing mark on a character boundary: what is in front of it are whole
   * characters, which are delivered with their line ends as line feeds, and pos is behind it.
   */
  lemma {:induction false} ClosedExactly(e: Encoding, s: seq<byte>, pos: nat, data: seq<byte>)
    requires e.Valid()
    ensures Whole(e, s) == Closed(pos, data) <==> exists cs :: ClosesBehind(e, s, cs, pos, data)
    ensures Verdict(Closed(pos, data), false) == Verdict(Closed(pos, data), true) == NO_ERROR
  {
    if Whole(e, s) == Closed(pos, data) {
      var cs := ScanReads(e, s, 0, []);
      assert [] + LinesOf(cs) == LinesOf(cs);
      assert ClosesBehind(e, s, cs, pos, data);
    }
    if cs :| ClosesBehind(e, s, cs, pos, data) {
      TextScans(e, s, 0, cs, |Flat(cs)|, []);
      StopsThere(e, s, |Flat(cs)|);
      ScanStops(e, s, |Flat(cs)|, [] + LinesOf(cs));
      assert [] + LinesOf(cs) == LinesOf(cs);
    }
  }

  /** Something that is no character is at the end of the characters cs. */
  ghost predicate BreaksBehind(e: Encoding, s: seq<byte>, cs: seq<seq<byte>>, pos: nat, data: seq<byte>) {
    Section(e, s, cs) && NoCharAt(e, s, |Flat(cs)|) && pos == |Flat(cs)| && data == LinesOf(cs)
  }

  /** A section is in error exactly at the first place where no character can be, unless it has been closed before. */
  lemma {:induction false} BadExactly(e: Encoding, s: seq<byte>, pos: nat, data: seq<byte>)
    requires e.Valid()
    ensures Whole(e, s) == Bad(pos, data) <==> exists cs :: BreaksBehind(e, s, cs, pos, data)
    ensures Verdict(Bad(pos, data), false) == Verdict(Bad(pos, data), true) == INVALID_TOKEN
  {
    if Whole(e, s) == Bad(pos, data) {
      var cs := ScanReads(e, s, 0, []);
      assert [] + LinesOf(cs) == LinesOf(cs);
      assert BreaksBehind(e, s, cs, pos, data);
    }
    if cs :| BreaksBehind(e, s, cs, pos, data) {
      TextScans(e, s, 0, cs, |Flat(cs)|, []);
      assert !MarkAt(s, |Flat(cs)|);
      StopsThere(e, s, |Flat(cs)|);
      ScanStops(e, s, |Flat(cs)|, [] + LinesOf(cs));
      assert [] + LinesOf(cs) == LinesOf(cs);
    }
  }

  /**
   * Of an open section whole characters have been delivered.  What is left is the beginning of a character, or it is
   * nothing, a carriage return, or one or two brackets.
   */
  lemma {:induction false} OpenReads(e: Encoding, s: seq<byte>) returns (cs: seq<seq<byte>>)
    requires e.Valid() && Whole(e, s).Open?
    ensures var o := Whole(e, s);
            && Section(e, s, cs) && o.pos == |Flat(cs)| && o.data == LinesOf(cs)
            && (o.splitChar <==> CutChar(e, s[o.pos..]))
            && (o.splitChar || s[o.pos..] in [[], [0x0D], [0x5D], [0x5D, 0x5D]])
  {
    cs := ScanReads(e, s, 0, []);
    assert [] + LinesOf(cs) == LinesOf(cs);
  }

  /** The input may not end inside a section; whether it ends inside a character makes the difference of two errors. */
  lemma {:induction false} EndInside(e: Encoding, s: seq<byte>)
    requires e.Valid() && Whole(e, s).Open?
    ensures Verdict(Whole(e, s), false) == NO_ERROR
    ensures Verdict(Whole(e, s), true)
         == if CutChar(e, s[Whole(e, s).pos..]) then PARTIAL_CHAR else UNCLOSED_CDATA_SECTION
  {
    var cs := OpenReads(e, s);
  }

  // ---- feeding line ends ----

  /** An open section of which nothing is left over. */
  ghost predicate UpToDate(e: Encoding, fed: seq<byte>) { Whole(e, fed).Open? && Whole(e, fed).pos == |fed| }

  /** What is fed then is read by itself. */
  lemma {:induction false} FedAlone(e: Encoding, fed: seq<byte>, w: seq<byte>)
    requires UpToDate(e, fed)
    ensures Whole(e, fed + w).data == Scan(e, w, 0, Whole(e, fed).data).data
  {
    assert w == fed[|fed|..] + w;
    Feed(e, fed, w, w);
  }

  lemma {:induction false} AllRead(e: Encoding, w: seq<byte>, data: seq<byte>)
    ensures Scan(e, w, |w|, data) == Open(|w|, data, false)
  {}

  /** A carriage return and a line feed are delivered as a line feed is. */
  lemma {:induction false} LineEnds(e: Encoding, fed: seq<byte>)
    requires e.Valid() && UpToDate(e, fed)
    ensures Whole(e, fed + [0x0D, 0x0A]).data == Whole(e, fed).data + [0x0A]
    ensures Whole(e, fed + [0x0A]).data == Whole(e, fed).data + [0x0A]
  {
    var d := Whole(e, fed).data;
    FedAlone(e, fed, [0x0D, 0x0A]);
    ScanUnit(e, [0x0D, 0x0A], 0, 2, [0x0A], d);
    AllRead(e, [0x0D, 0x0A], d + [0x0A]);
    FedAlone(e, fed, [0x0A]);
    assert [0x0A][0..1] == [0x0A];
    ScanUnit(e, [0x0A], 0, 1, [0x0A], d);
    AllRead(e, [0x0A], d + [0x0A]);
  }

  /** So is a carriage return with any other byte behind it. */
  lemma {:induction false} LoneReturn(e: Encoding, fed: seq<byte>, x: byte)
    requires e.Valid() && UpToDate(e, fed) && x != 0x0A
    ensures Whole(e, fed + [0x0D, x]).data == Whole(e, fed + [0x0A, x]).data
    ensures Whole(e, fed).data + [0x0A] <= Whole(e, fed + [0x0D, x]).data
  {
    var d := Whole(e, fed).data;
    FedAlone(e, fed, [0x0D, x]);
    FedAlone(e, fed, [0x0A, x]);
    ScanUnit(e, [0x0D, x], 0, 1, [0x0A], d);
    assert [0x0A, x][0..1] == [0x0A];
    ScanUnit(e, [0x0A, x], 0, 1, [0x0A], d);
    SameRest(e, [0x0D, x], [0x0A, x], d + [0x0A]);
  }

  lemma {:induction false} SameRest(e: Encoding, v: seq<byte>, w: seq<byte>, data: seq<byte>)
    requires |v| == |w| == 2 && v[1] == w[1]
    ensures Scan(e, v, 1, data).data == Scan(e, w, 1, data).data && data <= Scan(e, v, 1, data).data
  {
    assert v[1..] == w[1..];
    ScanMoves(e, v, v[1..], 1, 0, data);
    ScanMoves(e, w, w[1..], 1, 0, data);
    DataGrows(e, v, 1, data);
  }

  lemma {:induction false} DataGrows(e: Encoding, s: seq<byte>, p: nat, data: seq<byte>)
    requires p <= |s|
    ensures data <= Scan(e, s, p, data).data
    decreases |s| - p
  {
    var u := UnitAt(e, s, p);
    if Goes(u) {
      DataGrows(e, s, p + u.length, data + Output(s, p, u));
    }
  }

  /** Every other whole character comes out as it went in. */
  lemma {:induction false} OtherChars(e: Encoding, fed: seq<byte>, c: seq<byte>)
    requires e.Valid() && UpToDate(e, fed) && IsChar(e, c) && c[0] != 0x0D && c[0] != 0x5D
    ensures Whole(e, fed + c).data == Whole(e, fed).data + c
  {
    var d := Whole(e, fed).data;
    FedAlone(e, fed, c);
    assert c[0..|c|] == c;
    ScanUnit(e, c, 0, |c|, c, d);
    AllRead(e, c, d + c);
  }
}
