/** CDATA sections of an 8-bit encoding: the tokenizer and the loop that delivers character data. */
module Cdata {
  import opened Bytes
  import opened Seqs

  const RSQB: byte := 0x5D
  const GT: byte := 0x3E
  const LINE_FEED: byte := 0x0A

  datatype ByteType =
    BT_RSQB | BT_CR | BT_LF | BT_LEAD2 | BT_LEAD3 | BT_LEAD4 | BT_NONXML | BT_MALFORM | BT_TRAIL | BT_OTHER

  /** An encoding's table of byte types, and its check of multi-byte characters; every table has these three right. */
  datatype Encoding = Encoding(byteType: byte -> ByteType, isInvalidChar: seq<byte> -> bool) {
    ghost predicate Valid() {
      forall b: byte ::
        && (byteType(b) == BT_RSQB <==> b == 0x5D)
        && (byteType(b) == BT_CR <==> b == 0x0D)
        && (byteType(b) == BT_LF <==> b == 0x0A)
    }
  }

  predicate IsLead(t: ByteType) { t.BT_LEAD2? || t.BT_LEAD3? || t.BT_LEAD4? }

  predicate IsBad(t: ByteType) { t.BT_NONXML? || t.BT_MALFORM? || t.BT_TRAIL? }

  function LeadLength(t: ByteType): (n: nat)
    ensures 2 <= n <= 4
  {
    if t.BT_LEAD2? then 2 else if t.BT_LEAD3? then 3 else 4
  }

  // ---- what the bytes mean ----

  /** The first thing in the rest of a CDATA section. */
  datatype Unit =
    | Missing(splitChar: bool) // its end has not arrived
    | CloseMark
    | BadByte
    | Newline(length: nat)
    | Plain(length: nat)

  /** The unit at position p of s. */
  function UnitAt(e: Encoding, s: seq<byte>, p: nat): (u: Unit)
    requires p <= |s|
    ensures u.Newline? || u.Plain? ==> 1 <= u.length <= |s| - p
    ensures u.CloseMark? ==> p + 3 <= |s|
    ensures u.BadByte? ==> p < |s|
    ensures u.Missing? ==> |s| - p <= 3
  {
    var left := |s| - p;
    if left == 0 then Missing(false)
    else
      var t := e.byteType(s[p]);
      if t == BT_RSQB then
        if left == 1 then Missing(false)
        else if s[p + 1] != RSQB then Plain(1)
        else if left == 2 then Missing(false)
        else if s[p + 2] != GT then Plain(1)
        else CloseMark
      else if t == BT_CR then
        if left == 1 then Missing(false)
        else Newline(if e.byteType(s[p + 1]) == BT_LF then 2 else 1)
      else if t == BT_LF then Newline(1)
      else if IsLead(t) then
        if left < LeadLength(t) then Missing(true)
        else if e.isInvalidChar(s[p..p + LeadLength(t)]) then BadByte
        else Plain(LeadLength(t))
      else if IsBad(t) then BadByte
      else Plain(1)
  }

  /** Where the section stands: still open at pos, ended with the next byte at pos, or in error at pos. */
  datatype Outcome =
    | Open(pos: nat, data: seq<byte>, splitChar: bool)
    | Closed(pos: nat, data: seq<byte>)
    | Bad(pos: nat, data: seq<byte>)

  /** Can reading go on behind the unit? */
  predicate Goes(u: Unit) { u.Newline? || u.Plain? }

  /** Line ends become line feeds, as section 2.11 of XML 1.0 asks. */
  function Output(s: seq<byte>, p: nat, u: Unit): seq<byte>
    requires Goes(u) && p + u.length <= |s|
  {
    if u.Newline? then [LINE_FEED] else s[p..p + u.length]
  }

  function Stop(p: nat, u: Unit, data: seq<byte>): Outcome
    requires !Goes(u)
  {
    match u
    case Missing(splitChar) => Open(p, data, splitChar)
    case CloseMark => Closed(p + 3, data)
    case BadByte => Bad(p, data)
  }

  /** Reads s from p on, with the data read before. */
  function Scan(e: Encoding, s: seq<byte>, p: nat, data: seq<byte>): (o: Outcome)
    requires p <= |s|
    ensures p <= o.pos <= |s|
    decreases |s| - p
  {
    var u := UnitAt(e, s, p);
    if Goes(u) then Scan(e, s, p + u.length, data + Output(s, p, u)) else Stop(p, u, data)
  }

  /** A unit that has arrived is not changed by the bytes behind it. */
  lemma {:induction false} UnitExtends(e: Encoding, s: seq<byte>, t: seq<byte>, p: nat)
    requires p <= |s| && !UnitAt(e, s, p).Missing?
    ensures UnitAt(e, s + t, p) == UnitAt(e, s, p)
  {
    var n := LeadLength(e.byteType(s[p]));
    if n <= |s| - p {
      assert (s + t)[p..p + n] == s[p..p + n];
    }
  }

  lemma {:induction false} ScanGoes(e: Encoding, s: seq<byte>, p: nat, data: seq<byte>, q: nat, data': seq<byte>)
    requires p <= |s| && Goes(UnitAt(e, s, p))
    requires q == p + UnitAt(e, s, p).length && data' == data + Output(s, p, UnitAt(e, s, p))
    ensures Scan(e, s, p, data) == Scan(e, s, q, data')
  {}

  lemma {:induction false} ScanStops(e: Encoding, s: seq<byte>, p: nat, data: seq<byte>)
    requires p <= |s| && !Goes(UnitAt(e, s, p))
    ensures Scan(e, s, p, data) == Stop(p, UnitAt(e, s, p), data)
  {}

  /** One unit read before and after more bytes have arrived. */
  lemma {:induction false} OneExtends(e: Encoding, s: seq<byte>, t: seq<byte>, p: nat, data: seq<byte>)
    returns (q: nat, data': seq<byte>)
    requires p <= |s|
    ensures if Goes(UnitAt(e, s, p))
            then p < q <= |s| && Scan(e, s, p, data) == Scan(e, s, q, data')
                 && Scan(e, s + t, p, data) == Scan(e, s + t, q, data')
            else if UnitAt(e, s, p).Missing? then Scan(e, s, p, data) == Open(p, data, UnitAt(e, s, p).splitChar)
            else Scan(e, s + t, p, data) == Scan(e, s, p, data) && !Scan(e, s, p, data).Open?
  {
    var u := UnitAt(e, s, p);
    q, data' := p, data;
    if Goes(u) {
      UnitExtends(e, s, t, p);
      q, data' := p + u.length, data + Output(s, p, u);
      assert Output(s + t, p, u) == Output(s, p, u);
      ScanGoes(e, s, p, data, q, data');
      ScanGoes(e, s + t, p, data, q, data');
    } else if !u.Missing? {
      UnitExtends(e, s, t, p);
      ScanStops(e, s, p, data);
      ScanStops(e, s + t, p, data);
    } else {
      ScanStops(e, s, p, data);
    }
  }

  /** Bytes that arrive later do not change what has been read. */
  lemma {:induction false} ScanExtends(e: Encoding, s: seq<byte>, t: seq<byte>, p: nat, data: seq<byte>)
    requires p <= |s|
    ensures var o := Scan(e, s, p, data);
            Scan(e, s + t, p, data) == if o.Open? then Scan(e, s + t, o.pos, o.data) else o
    decreases |s| - p
  {
    var q, data' := OneExtends(e, s, t, p, data);
    if Goes(UnitAt(e, s, p)) {
      ScanExtends(e, s, t, q, data');
    }
  }

  function Moved(o: Outcome, d: nat): Outcome {
    match o
    case Open(pos, data, splitChar) => Open(pos + d, data, splitChar)
    case Closed(pos, data) => Closed(pos + d, data)
    case Bad(pos, data) => Bad(pos + d, data)
  }

  lemma {:induction false} UnitMoves(e: Encoding, s: seq<byte>, t: seq<byte>, d: nat, p: nat)
    requires d <= |s| && t == s[d..] && p <= |t|
    ensures UnitAt(e, s, d + p) == UnitAt(e, t, p)
  {
    if p < |t| {
      var n := LeadLength(e.byteType(t[p]));
      if n <= |t| - p {
        assert t[p..p + n] == s[d + p..d + p + n];
      }
    }
  }

  lemma {:induction false} OutputMoves(s: seq<byte>, t: seq<byte>, d: nat, p: nat, u: Unit)
    requires d <= |s| && t == s[d..] && Goes(u) && p + u.length <= |t|
    ensures Output(s, d + p, u) == Output(t, p, u)
  {}

  /** One unit read from the rest t of s, and where the whole stands then. */
  lemma {:induction false} OneMoves(e: Encoding, s: seq<byte>, t: seq<byte>, d: nat, p: nat, data: seq<byte>)
    returns (q: nat, data': seq<byte>)
    requires d <= |s| && t == s[d..] && p <= |t| && Goes(UnitAt(e, t, p))
    ensures p < q <= |t| && Scan(e, t, p, data) == Scan(e, t, q, data')
    ensures Scan(e, s, d + p, data) == Scan(e, s, d + q, data')
  {
    var u := UnitAt(e, t, p);
    q, data' := p + u.length, data + Output(t, p, u);
    ScanGoes(e, t, p, data, q, data');
    WholeMoves(e, s, t, d, p, data, u, q, data');
  }

  lemma {:induction false} WholeMoves(e: Encoding, s: seq<byte>, t: seq<byte>, d: nat, p: nat, data: seq<byte>, u: Unit,
                                      q: nat, data': seq<byte>)
    requires d <= |s| && t == s[d..] && p <= |t| && u == UnitAt(e, t, p) && Goes(u)
    requires q == p + u.length && data' == data + Output(t, p, u)
    ensures Scan(e, s, d + p, data) == Scan(e, s, d + q, data')
  {
    UnitMoves(e, s, t, d, p);
    OutputMoves(s, t, d, p, u);
  }

  lemma {:induction false} StopMoves(e: Encoding, s: seq<byte>, t: seq<byte>, d: nat, p: nat, data: seq<byte>)
    requires d <= |s| && t == s[d..] && p <= |t| && !Goes(UnitAt(e, t, p))
    ensures Scan(e, s, d + p, data) == Moved(Scan(e, t, p, data), d)
  {
    UnitMoves(e, s, t, d, p);
    ScanStops(e, s, d + p, data);
    ScanStops(e, t, p, data);
  }

  /** Reading the rest t of s by itself is reading s from there. */
  lemma {:induction false} ScanMoves(e: Encoding, s: seq<byte>, t: seq<byte>, d: nat, p: nat, data: seq<byte>)
    requires d <= |s| && t == s[d..] && p <= |t|
    ensures Scan(e, s, d + p, data) == Moved(Scan(e, t, p, data), d)
    decreases |t| - p
  {
    if Goes(UnitAt(e, t, p)) {
      var q, data' := OneMoves(e, s, t, d, p, data);
      ScanMoves(e, s, t, d, q, data');
    } else {
      StopMoves(e, s, t, d, p, data);
    }
  }

  /** At most three bytes of an open section are kept for later. */
  lemma {:induction false} FewLeft(e: Encoding, s: seq<byte>, p: nat, data: seq<byte>)
    requires p <= |s|
    ensures var o := Scan(e, s, p, data); o.Open? ==> |s| - o.pos <= 3 && UnitAt(e, s, o.pos) == Missing(o.splitChar)
    decreases |s| - p
  {
    var u := UnitAt(e, s, p);
    if Goes(u) {
      FewLeft(e, s, p + u.length, data + Output(s, p, u));
    }
  }

  // ---- the tokenizer ----

  datatype Tok =
    TOK_NONE | TOK_PARTIAL | TOK_PARTIAL_CHAR | TOK_INVALID | TOK_CDATA_SECT_CLOSE | TOK_DATA_NEWLINE | TOK_DATA_CHARS

  /** Positions p to q of s are whole plain units. */
  ghost predicate PlainRun(e: Encoding, s: seq<byte>, p: nat, q: nat)
    requires p <= q <= |s|
    decreases q - p
  {
    var u := UnitAt(e, s, p);
    p == q || (u.Plain? && p + u.length <= q && PlainRun(e, s, p + u.length, q))
  }

  lemma {:induction false} RunSnoc(e: Encoding, s: seq<byte>, p: nat, q: nat)
    requires p <= q <= |s| && PlainRun(e, s, p, q) && UnitAt(e, s, q).Plain?
    ensures PlainRun(e, s, p, q + UnitAt(e, s, q).length)
    decreases q - p
  {
    if p < q {
      RunSnoc(e, s, p + UnitAt(e, s, p).length, q);
    }
  }

  lemma {:induction false} RunRest(e: Encoding, s: seq<byte>, p: nat, q: nat, data: seq<byte>)
    returns (m: nat, data': seq<byte>)
    requires p < q <= |s| && PlainRun(e, s, p, q)
    ensures p < m <= q && PlainRun(e, s, m, q) && data' + s[m..q] == data + s[p..q]
    ensures Scan(e, s, p, data) == Scan(e, s, m, data')
  {
    m := p + UnitAt(e, s, p).length;
    data' := data + s[p..m];
    ScanGoes(e, s, p, data, m, data');
    SliceOn(data, s, p, m, q);
  }

  lemma {:induction false} SliceOn(data: seq<byte>, s: seq<byte>, p: nat, m: nat, q: nat)
    requires p <= m <= q <= |s|
    ensures data + s[p..m] + s[m..q] == data + s[p..q]
  {}

  lemma {:induction false} ScanRun(e: Encoding, s: seq<byte>, p: nat, q: nat, data: seq<byte>)
    requires p <= q <= |s| && PlainRun(e, s, p, q)
    ensures Scan(e, s, p, data) == Scan(e, s, q, data + s[p..q])
    decreases q - p
  {
    if p == q {
      assert data + s[p..q] == data;
    } else {
      var m, data' := RunRest(e, s, p, q, data);
      ScanRun(e, s, m, q, data');
    }
  }

  /** What a token says about the unit at ptr. */
  ghost predicate TokenIs(e: Encoding, s: seq<byte>, ptr: nat, tok: Tok, next: nat)
    requires ptr <= |s|
  {
    match tok
    case TOK_NONE => ptr == |s|
    case TOK_PARTIAL => ptr < |s| && UnitAt(e, s, ptr) == Missing(false)
    case TOK_PARTIAL_CHAR => ptr < |s| && UnitAt(e, s, ptr) == Missing(true)
    case TOK_INVALID => UnitAt(e, s, ptr) == BadByte && next == ptr
    case TOK_CDATA_SECT_CLOSE => UnitAt(e, s, ptr) == CloseMark && next == ptr + 3
    case TOK_DATA_NEWLINE => UnitAt(e, s, ptr).Newline? && next == ptr + UnitAt(e, s, ptr).length
    case TOK_DATA_CHARS => ptr < next <= |s| && PlainRun(e, s, ptr, next)
  }

  /** The first unit of a token; ptr moves past it when it is plain. */
  method FirstUnit(e: Encoding, mem: array<byte>, start: nat, end: nat) returns (tok: Tok, ptr: nat)
    requires e.Valid() && start < end <= mem.Length
    ensures var u := UnitAt(e, mem[..end], start);
            if tok == TOK_DATA_CHARS then u.Plain? && ptr == start + u.length
            else tok != TOK_NONE && TokenIs(e, mem[..end], start, tok, ptr)
  {
    ptr := start;
    ghost var s := mem[..end];
    match e.byteType(mem[ptr])
    case BT_RSQB =>
      ptr := ptr + 1;
      if ptr == end {
        return TOK_PARTIAL, ptr;
      }
      if mem[ptr] != RSQB {
        return TOK_DATA_CHARS, ptr;
      }
      ptr := ptr + 1;
      if ptr == end {
        return TOK_PARTIAL, ptr;
      }
      if mem[ptr] != GT {
        ptr := ptr - 1;
        return TOK_DATA_CHARS, ptr;
      }
      return TOK_CDATA_SECT_CLOSE, ptr + 1;
    case BT_CR =>
      ptr := ptr + 1;
      if ptr == end {
        return TOK_PARTIAL, ptr;
      }
      if e.byteType(mem[ptr]) == BT_LF {
        ptr := ptr + 1;
      }
      return TOK_DATA_NEWLINE, ptr;
    case BT_LF => return TOK_DATA_NEWLINE, ptr + 1;
    case BT_LEAD2 => tok, ptr := FirstLead(e, mem, ptr, end, 2);
    case BT_LEAD3 => tok, ptr := FirstLead(e, mem, ptr, end, 3);
    case BT_LEAD4 => tok, ptr := FirstLead(e, mem, ptr, end, 4);
    case BT_NONXML => return TOK_INVALID, ptr;
    case BT_MALFORM => return TOK_INVALID, ptr;
    case BT_TRAIL => return TOK_INVALID, ptr;
    case BT_OTHER => return TOK_DATA_CHARS, ptr + 1;
  }

  /** A lead byte of a character of n bytes. */
  method FirstLead(e: Encoding, mem: array<byte>, start: nat, end: nat, n: nat) returns (tok: Tok, ptr: nat)
    requires start < end <= mem.Length && IsLead(e.byteType(mem[start])) && n == LeadLength(e.byteType(mem[start]))
    ensures if tok == TOK_DATA_CHARS then UnitAt(e, mem[..end], start) == Plain(n) && ptr == start + n
            else tok != TOK_NONE && TokenIs(e, mem[..end], start, tok, ptr)
  {
    if end - start < n {
      return TOK_PARTIAL_CHAR, start;
    }
    ArraySlice(mem, end, start, start + n);
    if e.isInvalidChar(mem[start..start + n]) {
      return TOK_INVALID, start;
    }
    return TOK_DATA_CHARS, start + n;
  }

  method CdataSectionTok(e: Encoding, mem: array<byte>, start: nat, end: nat) returns (tok: Tok, next: nat)
    requires e.Valid() && start <= end <= mem.Length
    ensures TokenIs(e, mem[..end], start, tok, next)
  {
    if start == end {
      return TOK_NONE, start;
    }
    var ptr;
    tok, ptr := FirstUnit(e, mem, start, end);
    if tok != TOK_DATA_CHARS {
      return tok, ptr;
    }
    ghost var s := mem[..end];
    while ptr != end
      invariant start < ptr <= end && PlainRun(e, s, start, ptr)
    {
      var t := e.byteType(mem[ptr]);
      if IsLead(t) {
        var lead, behind := FirstLead(e, mem, ptr, end, LeadLength(t));
        if lead != TOK_DATA_CHARS {
          return TOK_DATA_CHARS, ptr;
        }
        RunSnoc(e, s, start, ptr);
        ptr := behind;
      } else if IsBad(t) || t == BT_CR || t == BT_LF || t == BT_RSQB {
        return TOK_DATA_CHARS, ptr;
      } else {
        RunSnoc(e, s, start, ptr);
        ptr := ptr + 1;
      }
    }
    next := ptr;
  }

  // ---- the loop ----

  datatype Error = NO_ERROR | INVALID_TOKEN | PARTIAL_CHAR | UNCLOSED_CDATA_SECTION

  /** The verdict on an outcome; at the end of the input an open section is an error. */
  function Verdict(o: Outcome, isFinal: bool): Error {
    match o
    case Open(_, _, splitChar) =>
      if !isFinal then NO_ERROR else if splitChar then PARTIAL_CHAR else UNCLOSED_CDATA_SECTION
    case Closed(_, _) => NO_ERROR
    case Bad(_, _) => INVALID_TOKEN
  }

  /**
   * Delivers the character data of mem[start..end].  The section ends at pos, or goes on from pos, or is wrong there;
   * data is what has been delivered in all.
   */
  method DoCdataSection(e: Encoding, mem: array<byte>, start: nat, end: nat, isFinal: bool, before: seq<byte>)
    returns (result: Error, closed: bool, pos: nat, data: seq<byte>)
    requires e.Valid() && start <= end <= mem.Length
    ensures var o := Scan(e, mem[..end], start, before);
            result == Verdict(o, isFinal) && (closed <==> o.Closed?) && pos == o.pos && data == o.data
  {
    var s := start;
    data := before;
    ghost var w := mem[..end];
    while true
      invariant start <= s <= end && Scan(e, w, s, data) == Scan(e, w, start, before)
      decreases end - s
    {
      var tok, next := CdataSectionTok(e, mem, s, end);
      match tok {
        case TOK_CDATA_SECT_CLOSE => return NO_ERROR, true, next, data;
        case TOK_DATA_NEWLINE => data := data + [LINE_FEED];
        case TOK_DATA_CHARS =>
          ScanRun(e, w, s, next, data);
          ArraySlice(mem, end, s, next);
          data := data + mem[s..next];
        case TOK_INVALID => return INVALID_TOKEN, false, next, data;
        case TOK_PARTIAL_CHAR => return if isFinal then PARTIAL_CHAR else NO_ERROR, false, s, data;
        case TOK_PARTIAL => return if isFinal then UNCLOSED_CDATA_SECTION else NO_ERROR, false, s, data;
        case TOK_NONE => return if isFinal then UNCLOSED_CDATA_SECTION else NO_ERROR, false, s, data;
      }
      s := next;
    }
  }
}
