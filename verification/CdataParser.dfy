/**
 * Feeding a CDATA section to the parser in pieces: leftover bytes, buffer management, and what the pieces add up to.
 */
module CdataParser {
  import opened Bytes
  import opened Seqs
  import opened Cdata

  const INIT_BUFFER_SIZE: nat := 1024

  datatype Processor = CdataSectionProcessor | ContentProcessor | ErrorProcessor

  /** What a whole section says, from its first byte. */
  function Whole(e: Encoding, s: seq<byte>): Outcome { Scan(e, s, 0, []) }

  /** What a chunk adds to an open section is read off the leftover bytes and the chunk alone. */
  lemma {:induction false} Feed(e: Encoding, fed: seq<byte>, chunk: seq<byte>, w: seq<byte>)
    requires Whole(e, fed).Open? && w == fed[Whole(e, fed).pos..] + chunk
    ensures Whole(e, fed + chunk) == Moved(Scan(e, w, 0, Whole(e, fed).data), Whole(e, fed).pos)
  {
    var o := Whole(e, fed);
    ScanExtends(e, fed, chunk, 0, []);
    DropConcat(fed, chunk, o.pos);
    ScanMoves(e, fed + chunk, w, o.pos, 0, o.data);
  }

  /** Is l, read in m, the outcome o of the section s?  Positions differ, but what is left over does not. */
  ghost predicate SameOutcome(s: seq<byte>, o: Outcome, m: seq<byte>, l: Outcome) {
    && l.data == o.data && Verdict(l, false) == Verdict(o, false) && Verdict(l, true) == Verdict(o, true)
    && (l.Closed? <==> o.Closed?)
    && o.pos <= |s| && l.pos <= |m| && m[l.pos..] == s[o.pos..]
  }

  /** The section loop, started at the leftover bytes, finds the outcome of everything fed. */
  lemma {:induction false} Located(e: Encoding, fed: seq<byte>, chunk: seq<byte>, m: seq<byte>, start: nat)
    requires Whole(e, fed).Open? && start <= |m| && m[start..] == fed[Whole(e, fed).pos..] + chunk
    ensures SameOutcome(fed + chunk, Whole(e, fed + chunk), m, Scan(e, m, start, Whole(e, fed).data))
  {
    var o, w := Whole(e, fed), m[start..];
    var l := Scan(e, w, 0, o.data);
    Feed(e, fed, chunk, w);
    ScanMoves(e, m, w, start, 0, o.data);
    DropConcat(fed, chunk, o.pos);
    SliceOf(fed + chunk, w, o.pos, l.pos);
    SliceOf(m, w, start, l.pos);
  }

  lemma {:induction false} SliceOf(s: seq<byte>, w: seq<byte>, d: nat, p: nat)
    requires d <= |s| && w == s[d..] && p <= |w|
    ensures s[d + p..] == w[p..]
  {}

  /** Once the section has ended or failed, later bytes do not change that. */
  lemma {:induction false} Decided(e: Encoding, fed: seq<byte>, chunk: seq<byte>)
    requires !Whole(e, fed).Open?
    ensures Whole(e, fed + chunk) == Whole(e, fed)
  {
    ScanExtends(e, fed, chunk, 0, []);
  }

  // ---- any cutting into chunks ----

  /** The first n chunks, one behind the other. */
  function Together(chunks: seq<seq<byte>>, n: nat): seq<byte>
    requires n <= |chunks|
  {
    if n == 0 then [] else Together(chunks, n - 1) + chunks[n - 1]
  }

  /** What is known after some chunks, and the bytes kept for the next one. */
  datatype Streamed = Streamed(outcome: Outcome, leftover: seq<byte>)

  /** Reads chunk by chunk, looking only at the leftover bytes and the chunk. */
  function Stream(e: Encoding, chunks: seq<seq<byte>>, n: nat): Streamed
    requires n <= |chunks|
  {
    if n == 0 then Streamed(Open(0, [], false), [])
    else
      var before := Stream(e, chunks, n - 1);
      if !before.outcome.Open? then before
      else
        var w := before.leftover + chunks[n - 1];
        var o := Scan(e, w, 0, before.outcome.data);
        Streamed(Moved(o, before.outcome.pos), if o.Open? then w[o.pos..] else [])
  }

  /**
   * However the bytes are cut, reading the chunks gives what reading everything at once gives, and few bytes are
   * kept.
   */
  lemma {:induction false} StreamIsBatch(e: Encoding, chunks: seq<seq<byte>>, n: nat)
    requires n <= |chunks|
    ensures var r := Stream(e, chunks, n);
            && r.outcome == Whole(e, Together(chunks, n))
            && (r.outcome.Open? ==> r.leftover == Together(chunks, n)[r.outcome.pos..] && |r.leftover| <= 3)
  {
    if n > 0 {
      var before, fed := Stream(e, chunks, n - 1), Together(chunks, n - 1);
      StreamIsBatch(e, chunks, n - 1);
      if before.outcome.Open? {
        StreamStep(e, fed, chunks[n - 1], before.leftover + chunks[n - 1]);
      } else {
        Decided(e, fed, chunks[n - 1]);
      }
    }
  }

  lemma {:induction false} StreamStep(e: Encoding, fed: seq<byte>, chunk: seq<byte>, w: seq<byte>)
    requires Whole(e, fed).Open? && w == fed[Whole(e, fed).pos..] + chunk
    ensures var l, o := Scan(e, w, 0, Whole(e, fed).data), Whole(e, fed + chunk);
            && o == Moved(l, Whole(e, fed).pos)
            && (o.Open? ==> w[l.pos..] == (fed + chunk)[o.pos..] && |w[l.pos..]| <= 3)
  {
    var d, l := Whole(e, fed).pos, Scan(e, w, 0, Whole(e, fed).data);
    Feed(e, fed, chunk, w);
    DropConcat(fed, chunk, d);
    SliceOf(fed + chunk, w, d, l.pos);
    FewLeft(e, w, 0, Whole(e, fed).data);
  }

  /** Copies n bytes between arrays, or downward inside one. */
  method Copy(dst: array<byte>, at: nat, src: array<byte>, from: nat, n: nat)
    requires at + n <= dst.Length && from + n <= src.Length && (dst == src ==> at <= from)
    modifies dst
    ensures dst[at..at + n] == old(src[from..from + n])
    ensures dst[..at] == old(dst[..at])
  {
    var i := 0;
    while i < n
      invariant 0 <= i <= n
      invariant dst[..at] == old(dst[..at])
      invariant dst[at..at + i] == old(src[from..from + i])
      invariant dst == src ==> dst[from + i..from + n] == old(src[from + i..from + n])
      invariant dst != src ==> src[..] == old(src[..])
    {
      assert src[from + i] == old(src[from + i]) by {
        assert dst == src ==> dst[from + i] == dst[from + i..from + n][0] == old(src[from + i..from + n])[0];
        assert dst != src ==> src[..][from + i] == old(src[..])[from + i];
      }
      dst[at + i] := src[from + i];
      i := i + 1;
    }
  }

  class Parser {
    const e: Encoding
    var buffer: array<byte>
    var bufferPtr: nat
    var bufferEnd: nat
    var processor: Processor
    var errorCode: Error
    var parseEndByteIndex: int
    var eventByteIndex: int
    var data: seq<byte>
    var content: seq<byte>
    ghost var fed: seq<byte>

    /**
     * What has been delivered is what fed says, read at once: the data, then the content behind the section's end, or
     * the error and its place.
     */
    ghost predicate Delivered()
      reads this
    {
      var o := Whole(e, fed);
      && data == o.data
      && match processor
         case CdataSectionProcessor => o.Open? && content == [] && errorCode == NO_ERROR
         case ContentProcessor => o.Closed? && content == fed[o.pos..] && errorCode == NO_ERROR
         case ErrorProcessor => !o.Closed? && errorCode == Verdict(o, true) && eventByteIndex == o.pos
    }

    /** The state after fed, when the bytes in pending have not been used yet. */
    ghost predicate Current(pending: seq<byte>)
      reads this
    {
      && e.Valid() && Delivered()
      && (processor.CdataSectionProcessor? ==> pending == fed[Whole(e, fed).pos..])
      && (processor.ContentProcessor? ==> pending == [])
    }

    /** The bytes kept between calls. */
    ghost function Pending(): seq<byte>
      reads this, buffer
      requires bufferPtr <= bufferEnd <= buffer.Length
    {
      buffer[bufferPtr..bufferEnd]
    }

    ghost predicate Valid()
      reads this, buffer
    {
      && bufferPtr <= bufferEnd <= buffer.Length
      && Current(Pending())
      && (processor != ErrorProcessor ==> parseEndByteIndex == |fed|)
    }

    /** A parser right behind the opening of a section. */
    constructor (e: Encoding)
      requires e.Valid()
      ensures Valid() && fresh(buffer) && fed == [] && processor == CdataSectionProcessor && this.e == e
    {
      this.e := e;
      buffer := new byte[0];
      bufferPtr, bufferEnd := 0, 0;
      processor, errorCode := CdataSectionProcessor, NO_ERROR;
      parseEndByteIndex, eventByteIndex := 0, 0;
      data, content, fed := [], [], [];
    }

    /** At most three bytes are kept between calls. */
    lemma {:induction false} FewPending()
      requires Valid() && processor != ErrorProcessor
      ensures |Pending()| <= 3
    {
      FewLeft(e, fed, 0, []);
    }

    /** The current processor on mem[start..end], which is what was pending followed by the new chunk. */
    method Process(mem: array<byte>, start: nat, end: nat, isFinal: bool, ghost pending: seq<byte>,
                   ghost chunk: seq<byte>)
      returns (ok: bool, next: nat)
      requires start <= end <= mem.Length && mem[start..end] == pending + chunk
      requires Current(pending) && processor != ErrorProcessor && parseEndByteIndex == |fed| + |chunk|
      modifies this`processor, this`errorCode, this`eventByteIndex, this`data, this`content, this`fed
      ensures fed == old(fed) + chunk && start <= next <= end
      ensures ok <==> processor != ErrorProcessor
      ensures ok <==> Verdict(Whole(e, fed), isFinal) == NO_ERROR
      ensures Current(mem[next..end])
    {
      if processor == ContentProcessor {
        Decided(e, fed, chunk);
        content := content + mem[start..end];
        fed := fed + chunk;
        assert mem[end..end] == [];
        return true, end;
      }
      var result, closed;
      result, closed, next := Section(mem, start, end, isFinal, pending, chunk);
      ok, next := Finish(mem, start, end, isFinal, result, closed, next);
    }

    /** The section loop on an open section. */
    method Section(mem: array<byte>, start: nat, end: nat, isFinal: bool, ghost pending: seq<byte>,
                   ghost chunk: seq<byte>)
      returns (result: Error, closed: bool, pos: nat)
      requires start <= end <= mem.Length && mem[start..end] == pending + chunk
      requires Current(pending) && processor == CdataSectionProcessor && parseEndByteIndex == |fed| + |chunk|
      modifies this`data, this`fed
      ensures fed == old(fed) + chunk && data == Whole(e, fed).data
      ensures ReadTo(mem, start, end, pos)
      ensures result == Verdict(Whole(e, fed), isFinal) && (closed <==> Whole(e, fed).Closed?)
    {
      ArraySlice(mem, end, start, end);
      Located(e, fed, chunk, mem[..end], start);
      result, closed, pos, data := DoCdataSection(e, mem, start, end, isFinal, data);
      fed := fed + chunk;
      ArraySlice(mem, end, pos, end);
    }

    /** Where the section has been read to, in memory and in all the bytes fed. */
    ghost predicate ReadTo(mem: array<byte>, start: nat, end: nat, pos: nat)
      reads this, mem
    {
      && start <= pos <= end <= mem.Length
      && Whole(e, fed).pos <= |fed| == parseEndByteIndex
      && end - pos == |fed| - Whole(e, fed).pos
      && mem[pos..end] == fed[Whole(e, fed).pos..]
    }

    /** Switches processor after the section loop. */
    method Finish(mem: array<byte>, ghost start: nat, end: nat, isFinal: bool, result: Error, closed: bool, pos: nat)
      returns (ok: bool, next: nat)
      requires processor == CdataSectionProcessor && content == [] && e.Valid() && errorCode == NO_ERROR
      requires ReadTo(mem, start, end, pos) && data == Whole(e, fed).data
      requires result == Verdict(Whole(e, fed), isFinal) && (closed <==> Whole(e, fed).Closed?)
      modifies this`processor, this`errorCode, this`eventByteIndex, this`content
      ensures start <= next <= end
      ensures ok <==> processor != ErrorProcessor
      ensures ok <==> result == NO_ERROR
      ensures Current(mem[next..end])
    {
      ok, next := true, pos;
      if closed {
        processor := ContentProcessor;
        content := mem[pos..end];
        next := end;
      } else if result != NO_ERROR {
        processor, errorCode := ErrorProcessor, result;
        eventByteIndex := parseEndByteIndex - (end - pos);
        ok := false;
      }
    }

    /** Calls the current processor; the error processor only repeats its error. */
    method CallProcessor(mem: array<byte>, start: nat, end: nat, isFinal: bool, ghost pending: seq<byte>,
                         ghost chunk: seq<byte>)
      returns (ok: bool, next: nat)
      requires start <= end <= mem.Length && mem[start..end] == pending + chunk && Current(pending)
      requires processor != ErrorProcessor ==> parseEndByteIndex == |fed| + |chunk|
      modifies this`processor, this`errorCode, this`eventByteIndex, this`data, this`content, this`fed
      ensures start <= next <= end && Current(mem[next..end])
      ensures ok <==> processor != ErrorProcessor
      ensures Told(old(processor), old(fed), chunk, isFinal, ok)
      ensures processor != ErrorProcessor ==> parseEndByteIndex == |fed|
    {
      if processor == ErrorProcessor {
        return false, start;
      }
      ok, next := Process(mem, start, end, isFinal, pending, chunk);
    }

    /**
     * The answer to a chunk: everything fed so far is judged as if it had come at once.  After an error nothing
     * counts any more.
     */
    ghost predicate Told(before: Processor, oldFed: seq<byte>, chunk: seq<byte>, isFinal: bool, ok: bool)
      reads this
    {
      if before == ErrorProcessor then processor == ErrorProcessor && fed == oldFed
      else fed == oldFed + chunk && (ok <==> Verdict(Whole(e, fed), isFinal) == NO_ERROR)
    }

    /** Makes room for len bytes behind the pending ones. */
    method GetBuffer(len: nat)
      requires bufferPtr <= bufferEnd <= buffer.Length
      modifies this`buffer, this`bufferPtr, this`bufferEnd, buffer
      ensures buffer == old(buffer) || fresh(buffer)
      ensures bufferPtr <= bufferEnd && bufferEnd + len <= buffer.Length
      ensures Pending() == old(Pending())
    {
      var n := bufferEnd - bufferPtr;
      if len > buffer.Length - bufferEnd {
        var neededSize := len + n;
        if neededSize <= buffer.Length {
          Copy(buffer, 0, buffer, bufferPtr, n);
        } else {
          var bufferSize := buffer.Length - bufferPtr;
          if bufferSize == 0 {
            bufferSize := INIT_BUFFER_SIZE;
          }
          bufferSize := bufferSize * 2;
          while bufferSize < neededSize
            invariant bufferSize > 0
          {
            bufferSize := bufferSize * 2;
          }
          var newBuf := new byte[bufferSize];
          Copy(newBuf, 0, buffer, bufferPtr, n);
          buffer := newBuf;
        }
        bufferPtr, bufferEnd := 0, n;
      }
    }

    /** Processes len bytes that have been put behind the pending ones. */
    method ParseBuffer(len: nat, isFinal: bool, ghost pending: seq<byte>) returns (ok: bool)
      requires bufferPtr <= bufferEnd && bufferEnd + len <= buffer.Length && Pending() == pending && Current(pending)
      requires processor != ErrorProcessor ==> parseEndByteIndex == |fed|
      modifies this
      ensures buffer == old(buffer)
      ensures Delivered() && ((isFinal && ok) || Valid())
      ensures ok <==> processor != ErrorProcessor
      ensures Told(old(processor), old(fed), old(buffer[bufferEnd..bufferEnd + len]), isFinal, ok)
    {
      ghost var chunk := buffer[bufferEnd..bufferEnd + len];
      assert buffer[bufferPtr..bufferEnd + len] == pending + chunk;
      bufferEnd := bufferEnd + len;
      parseEndByteIndex := parseEndByteIndex + len;
      var next;
      ok, next := CallProcessor(buffer, bufferPtr, bufferEnd, isFinal, pending, chunk);
      if !isFinal && ok {
        bufferPtr := next;
      }
    }

    /** Keeps n leftover bytes of the caller's array. */
    method KeepLeftover(s: array<byte>, end: nat, len: nat)
      requires end < len <= s.Length && bufferPtr == bufferEnd <= buffer.Length && s != buffer
      modifies this`buffer, this`bufferPtr, this`bufferEnd, buffer
      ensures buffer == old(buffer) || fresh(buffer)
      ensures bufferPtr <= bufferEnd <= buffer.Length && Pending() == old(s[end..len])
    {
      var nLeftOver := len - end;
      if buffer.Length == 0 || nLeftOver > buffer.Length {
        buffer := new byte[len * 2];
      }
      Copy(buffer, 0, s, end, nLeftOver);
      bufferPtr, bufferEnd := 0, nLeftOver;
    }

    /** The end of the input, without another chunk. */
    method ParseEnd() returns (ok: bool)
      requires Valid()
      modifies this
      ensures buffer == old(buffer) && Delivered() && (ok || Valid())
      ensures Told(old(processor), old(fed), [], true, ok)
    {
      assert buffer[bufferPtr..bufferEnd] == Pending() + [];
      var next;
      ok, next := CallProcessor(buffer, bufferPtr, bufferEnd, true, Pending(), []);
    }

    /** Feeds a chunk when nothing is pending: it is processed where it is. */
    method ParseDirect(s: array<byte>, len: nat, isFinal: bool) returns (ok: bool)
      requires Valid() && bufferPtr == bufferEnd && 0 < len <= s.Length && s != buffer
      modifies this, buffer
      ensures buffer == old(buffer) || fresh(buffer)
      ensures Delivered() && ((isFinal && ok) || Valid())
      ensures Told(old(processor), old(fed), old(s[..len]), isFinal, ok)
    {
      assert s[0..len] == [] + s[..len];
      assert Pending() == [];
      parseEndByteIndex := parseEndByteIndex + len;
      var end;
      ok, end := CallProcessor(s, 0, len, isFinal, [], s[..len]);
      if ok && !isFinal && end < len {
        KeepLeftover(s, end, len);
      } else {
        assert ok && !isFinal ==> s[end..len] == [];
      }
    }

    /**
     * XML_Parse inside a CDATA section.  However the input is cut into chunks, the data delivered, the place where the
     * section ends and any error are those of all the bytes fed so far, read at once.
     */
    method Parse(s: array<byte>, len: nat, isFinal: bool) returns (ok: bool)
      requires Valid() && len <= s.Length && s != buffer
      modifies this, buffer
      ensures buffer == old(buffer) || fresh(buffer)
      ensures Delivered() && ((isFinal && ok) || Valid())
      ensures (old(processor) == ErrorProcessor && len == 0 && !isFinal) ||
                Told(old(processor), old(fed), old(s[..len]), isFinal, ok)
    {
      if len == 0 {
        if !isFinal {
          assert old(fed) + s[..0] == fed;
          return true;
        }
        ok := ParseEnd();
        assert s[..0] == [];
      } else if bufferPtr == bufferEnd {
        ok := ParseDirect(s, len, isFinal);
      } else {
        ghost var pending := Pending();
        GetBuffer(len);
        Copy(buffer, bufferEnd, s, 0, len);
        assert Pending() == buffer[..bufferEnd][bufferPtr..];
        ok := ParseBuffer(len, isFinal, pending);
      }
    }
  }
}
