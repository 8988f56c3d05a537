/** Converting between UTF-16 and UTF-8 through buffers that may be too small for everything at once. */
module Utf {
  import opened Bytes
  import opened Seqs
  import opened Unicode

  ghost predicate AllScalar(cs: seq<int>) { forall k :: 0 <= k < |cs| ==> Scalar(cs[k]) }

  /** The bytes of UTF-16 units, high or low byte first. */
  function Wire(big: bool, us: seq<unit>): (s: seq<byte>)
    ensures |s| == 2 * |us|
  {
    if us == [] then []
    else
      var u := us[|us| - 1];
      Wire(big, us[..|us| - 1]) + if big then [u / 256, u % 256] else [u % 256, u / 256]
  }

  /** Unit k, high byte first or last. */
  lemma {:induction false} WireReads(us: seq<unit>, k: nat)
    requires k < |us|
    ensures Wire(true, us)[2 * k] as int * 256 + Wire(true, us)[2 * k + 1] as int == us[k]
    ensures Wire(false, us)[2 * k + 1] as int * 256 + Wire(false, us)[2 * k] as int == us[k]
  {
    var n := |us| - 1;
    if k < n {
      WireReads(us[..n], k);
    }
  }

  /** The bytes of UTF-16 for cs from index k on. */
  function Wire16(big: bool, cs: seq<int>, k: nat): seq<byte>
    requires k <= |cs| && AllScalar(cs)
    decreases |cs| - k
  {
    if k == |cs| then [] else Wire(big, Utf16(cs[k])) + Wire16(big, cs, k + 1)
  }

  /** The bytes of UTF-8 for indices i to k - 1 of cs. */
  function Text8(cs: seq<int>, i: nat, k: nat): seq<byte>
    requires i <= k <= |cs| && AllScalar(cs)
    decreases k
  {
    if k == i then [] else Text8(cs, i, k - 1) + Utf8(cs[k - 1])
  }

  lemma {:induction false} Text8Concat(cs: seq<int>, i: nat, k: nat, m: nat)
    requires i <= k <= m <= |cs| && AllScalar(cs)
    ensures Text8(cs, i, m) == Text8(cs, i, k) + Text8(cs, k, m)
    decreases m
  {
    if k < m {
      Text8Concat(cs, i, k, m - 1);
      Assoc(Text8(cs, i, k), Text8(cs, k, m - 1), Utf8(cs[m - 1]));
    }
  }

  // ---- one character ----

  method GetLo(big: bool, mem: array<byte>, p: nat) returns (lo: byte)
    requires p + 2 <= mem.Length
    ensures lo == if big then mem[p + 1] else mem[p]
  {
    lo := if big then mem[p + 1] else mem[p];
  }

  method GetHi(big: bool, mem: array<byte>, p: nat) returns (hi: byte)
    requires p + 2 <= mem.Length
    ensures hi == if big then mem[p] else mem[p + 1]
  {
    hi := if big then mem[p] else mem[p + 1];
  }

  lemma {:induction false} WireOne(big: bool, c: nat)
    requires Scalar(c) && c < 0x10000
    ensures Wire(big, Utf16(c)) == if big then [c / 256, c % 256] else [c % 256, c / 256]
  {
    assert Utf16(c)[..0] == [];
  }

  lemma {:induction false} WireTwo(big: bool, c: nat)
    requires 0x10000 <= c < 0x110000
    ensures var u, v := Utf16(c)[0], Utf16(c)[1];
            Wire(big, Utf16(c))
            == if big then [u / 256, u % 256, v / 256, v % 256] else [u % 256, u / 256, v % 256, v / 256]
  {
    var us := Utf16(c);
    assert us[..1] == [us[0]] && us[..1][..0] == [];
    assert Wire(big, us[..1]) == if big then [us[0] / 256, us[0] % 256] else [us[0] % 256, us[0] / 256];
  }

  // A unit u is 256 * hi + lo; the bits of the encoded bytes come from both halves.

  lemma {:induction false} LowSix(u: nat)
    ensures u % 256 % 64 == u % 64
  {}

  lemma {:induction false} HighFour(u: nat)
    ensures u / 256 / 16 == u / 4096
  {}

  lemma {:induction false} MiddleSix(u: nat)
    ensures u / 256 % 16 * 4 + u % 256 / 64 == u / 64 % 64
  {}

  lemma {:induction false} HighFive(u: nat)
    requires u < 0x800
    ensures u % 256 / 64 + u / 256 * 4 == u / 64 && u / 256 < 8
  {}

  // For a surrogate pair (u, v) of c: with w = c - 0x10000, u is 0xD800 + w / 1024 and v is 0xDC00 + w % 1024.

  /** The plane is the number of the 65536-block that c is in. */
  lemma {:induction false} PlaneOf(x: nat)
    requires x < 1024
    ensures (0xD800 + x) / 256 % 4 * 4 + (0xD800 + x) % 256 / 64 % 4 == x / 64
    ensures 0xD8 <= (0xD800 + x) / 256 <= 0xDB
  {
    assert (0xD800 + x) / 256 == 0xD8 + x / 256 && (0xD800 + x) % 256 == x % 256;
    MiddleBits(x);
  }

  lemma {:induction false} MiddleBits(x: nat)
    requires x < 1024
    ensures x / 256 * 4 + x % 256 / 64 == x / 64
  {}

  lemma {:induction false} LowBits(x: nat)
    requires x < 1024
    ensures (0xD800 + x) % 256 / 4 % 16 == x / 4 % 16
    ensures (0xD800 + x) % 256 % 4 == x % 4
  {
    assert (0xD800 + x) % 256 == x % 256;
    DivInMod(x);
    ModInMod(x / 4);
  }

  lemma {:induction false} DivInMod(x: nat)
    ensures x % 256 / 4 == x / 4 % 64
  {}

  lemma {:induction false} ModInMod(z: nat)
    ensures z % 64 % 16 == z % 16
  {}

  lemma {:induction false} SecondUnit(y: nat)
    requires y < 1024
    ensures (0xDC00 + y) / 256 % 4 * 4 + (0xDC00 + y) % 256 / 64 == y / 64
    ensures (0xDC00 + y) % 256 % 64 == y % 64
  {
    assert (0xDC00 + y) / 256 == 0xDC + y / 256 && (0xDC00 + y) % 256 == y % 256;
    MiddleBits(y);
    LowSix(y);
  }

  /** The bits of c = 0x10000 + 1024 x + y, counted from x and y. */
  lemma {:induction false} PairBits(x: nat, y: nat)
    requires x < 1024 && y < 1024
    ensures var c := 0x10000 + 1024 * x + y;
            && (x / 64 + 1) / 4 == c / 262144
            && x / 4 % 16 + (x / 64 + 1) % 4 * 16 == c / 4096 % 64
            && x % 4 * 16 + y / 64 == c / 64 % 64
            && y % 64 == c % 64
  {
    var c := 0x10000 + 1024 * x + y;
    PairBitsLow(x, y);
    PairBitsMiddle(x, y);
    PairBitsHigh(x, y);
  }

  lemma {:induction false} PairBitsLow(x: nat, y: nat)
    requires x < 1024 && y < 1024
    ensures (0x10000 + 1024 * x + y) % 64 == y % 64
    ensures (0x10000 + 1024 * x + y) / 64 % 64 == x % 4 * 16 + y / 64
  {
    assert (0x10000 + 1024 * x + y) / 64 == 1024 + 16 * x + y / 64;
  }

  lemma {:induction false} PairBitsMiddle(x: nat, y: nat)
    requires x < 1024 && y < 1024
    ensures (0x10000 + 1024 * x + y) / 4096 % 64 == x / 4 % 16 + (x / 64 + 1) % 4 * 16
  {
    assert (0x10000 + 1024 * x + y) / 4096 == 16 + x / 4;
    assert x / 4 == x / 64 * 16 + x / 4 % 16;
  }

  lemma {:induction false} PairBitsHigh(x: nat, y: nat)
    requires x < 1024 && y < 1024
    ensures (0x10000 + 1024 * x + y) / 262144 == (x / 64 + 1) / 4
  {
    assert (0x10000 + 1024 * x + y) / 65536 == x / 64 + 1;
    assert (0x10000 + 1024 * x + y) / 65536 / 4 == (0x10000 + 1024 * x + y) / 262144;
  }

  /** The first character of the rest of the input. */
  lemma {:induction false} NextWire(big: bool, cs: seq<int>, k: nat, rest: seq<byte>)
    requires k < |cs| && AllScalar(cs) && rest == Wire16(big, cs, k)
    ensures var n := 2 * |Utf16(cs[k])|;
            n <= |rest| && rest[..n] == Wire(big, Utf16(cs[k])) && rest[n..] == Wire16(big, cs, k + 1)
  {}

  lemma {:induction false} SliceCut(a: array<byte>, p: nat, n: nat, end: nat)
    requires p + n <= end <= a.Length
    ensures a[p..end][..n] == a[p..p + n] && a[p..end][n..] == a[p + n..end]
  {}

  /** Nothing outside to[q..q'] has changed. */
  twostate predicate Untouched<T>(to: array<T>, q: nat, q': nat)
    reads to
  {
    forall x :: 0 <= x < to.Length && !(q <= x < q') ==> to[x] == old(to[x])
  }

  lemma {:induction false} Spliced<T>(before: seq<T>, after: seq<T>, p: nat, q: nat, r: nat)
    requires p <= q <= r <= |before| == |after| && forall x :: 0 <= x < q ==> after[x] == before[x]
    ensures after[p..r] == before[p..q] + after[q..r]
  {}

  /** Writes the bytes of a character of the basic plane. */
  method PutPlain(hi: byte, lo: byte, to: array<byte>, q: nat, toLim: nat, ghost c: nat) returns (q': nat, fits: bool)
    requires q <= toLim <= to.Length && Scalar(c) && c < 0x10000 && hi == c / 256 && lo == c % 256
    modifies to
    ensures fits <==> toLim - q >= |Utf8(c)|
    ensures q' == if fits then q + |Utf8(c)| else q
    ensures Untouched(to, q, q')
    ensures fits ==> to[q..q'] == Utf8(c)
  {
    LowSix(c);
    if hi == 0 && lo < 0x80 {
      if q == toLim {
        return q, false;
      }
      to[q] := lo;
      return q + 1, true;
    }
    if hi <= 7 {
      HighFive(c);
      if toLim - q < 2 {
        return q, false;
      }
      to[q] := lo / 64 + hi * 4 + 0xC0;
      to[q + 1] := lo % 64 + 0x80;
      return q + 2, true;
    }
    HighFour(c);
    MiddleSix(c);
    if toLim - q < 3 {
      return q, false;
    }
    to[q] := hi / 16 + 0xE0;
    to[q + 1] := hi % 16 * 4 + lo / 64 + 0x80;
    to[q + 2] := lo % 64 + 0x80;
    return q + 3, true;
  }

  /** The four bytes of the character of a surrogate pair. */
  lemma {:induction false} PairBytes(c: nat, hi: int, lo: int, hi2: int, lo2: int)
    requires 0x10000 <= c < 0x110000
    requires Utf16(c)[0] == 256 * hi + lo && 0 <= lo < 256 && Utf16(c)[1] == 256 * hi2 + lo2 && 0 <= lo2 < 256
    ensures 0xD8 <= hi <= 0xDB
    ensures var plane := hi % 4 * 4 + lo / 64 % 4 + 1;
            && Utf8(c)[0] == plane / 4 + 0xF0
            && Utf8(c)[1] == lo / 4 % 16 + plane % 4 * 16 + 0x80
            && Utf8(c)[2] == lo % 4 * 16 + hi2 % 4 * 4 + lo2 / 64 + 0x80
            && Utf8(c)[3] == lo2 % 64 + 0x80
  {
    var x, y := (c - 0x10000) / 1024, (c - 0x10000) % 1024;
    assert hi == (0xD800 + x) / 256 && lo == (0xD800 + x) % 256;
    assert hi2 == (0xDC00 + y) / 256 && lo2 == (0xDC00 + y) % 256;
    PlaneOf(x);
    LowBits(x);
    SecondUnit(y);
    PairBits(x, y);
  }

  /** Writes the four bytes of a surrogate pair. */
  method PutPair(hi: byte, lo: byte, hi2: byte, lo2: byte, to: array<byte>, q: nat, ghost c: nat)
    requires q + 4 <= to.Length && 0x10000 <= c < 0x110000
    requires Utf16(c)[0] == 256 * hi + lo && Utf16(c)[1] == 256 * hi2 + lo2
    modifies to
    ensures Untouched(to, q, q + 4)
    ensures to[q..q + 4] == Utf8(c)
  {
    PairBytes(c, hi, lo, hi2, lo2);
    var plane: int := hi % 4 * 4 + lo / 64 % 4 + 1;
    to[q] := plane / 4 + 0xF0;
    to[q + 1] := lo / 4 % 16 + plane % 4 * 16 + 0x80;
    to[q + 2] := lo % 4 * 16 + hi2 % 4 * 4 + lo2 / 64 + 0x80;
    to[q + 3] := lo2 % 64 + 0x80;
  }

  /** One turn of the conversion loop. */
  method PutChar(big: bool, from: array<byte>, p: nat, to: array<byte>, q: nat, toLim: nat, ghost c: nat)
    returns (p': nat, q': nat, fits: bool)
    requires q <= toLim <= to.Length && from != to && Scalar(c)
    requires p + 2 * |Utf16(c)| <= from.Length && from[p..p + 2 * |Utf16(c)|] == Wire(big, Utf16(c))
    modifies to
    ensures fits <==> toLim - q >= |Utf8(c)|
    ensures p' == (if fits then p + 2 * |Utf16(c)| else p) && q' == if fits then q + |Utf8(c)| else q
    ensures Untouched(to, q, q')
    ensures fits ==> to[q..q'] == Utf8(c)
  {
    ghost var w := from[p..p + 2 * |Utf16(c)|];
    assert from[p] == w[0] && from[p + 1] == w[1];
    var lo := GetLo(big, from, p);
    var hi := GetHi(big, from, p);
    if c < 0x10000 {
      WireOne(big, c);
    } else {
      WireTwo(big, c);
      assert from[p + 2] == w[2] && from[p + 3] == w[3];
      PlaneOf((c - 0x10000) / 1024);
    }
    if 0xD8 <= hi <= 0xDB {
      if toLim - q < 4 {
        return p, q, false;
      }
      var lo2 := GetLo(big, from, p + 2);
      var hi2 := GetHi(big, from, p + 2);
      PutPair(hi, lo, hi2, lo2, to, q, c);
      return p + 4, q + 4, true;
    }
    q', fits := PutPlain(hi, lo, to, q, toLim, c);
    p' := if fits then p + 2 else p;
  }

  lemma {:induction false} WireEnds(big: bool, cs: seq<int>, k: nat)
    requires k <= |cs| && AllScalar(cs)
    ensures Wire16(big, cs, k) == [] <==> k == |cs|
  {}

  /** Converts the character with index k, behind those with indices i to k - 1. */
  method PutNext(big: bool, from: array<byte>, p: nat, fromLim: nat, to: array<byte>, ghost toP: nat, q: nat,
                 toLim: nat, ghost cs: seq<int>, ghost i: nat, ghost k: nat)
    returns (p': nat, q': nat, fits: bool)
    requires p < fromLim <= from.Length && toP <= q <= toLim <= to.Length && from != to
    requires i <= k < |cs| && AllScalar(cs)
    requires from[p..fromLim] == Wire16(big, cs, k) && to[toP..q] == Text8(cs, i, k)
    modifies to
    ensures fits <==> toLim - q >= |Utf8(cs[k])|
    ensures q <= q' <= toLim && Untouched(to, q, q')
    ensures to[toP..q'] == Text8(cs, i, if fits then k + 1 else k)
    ensures if fits then p < p' <= fromLim && from[p'..fromLim] == Wire16(big, cs, k + 1)
            else p' == p && q' == q
  {
    NextWire(big, cs, k, from[p..fromLim]);
    SliceCut(from, p, 2 * |Utf16(cs[k])|, fromLim);
    ghost var before := to[..];
    ArraySlice(to, to.Length, toP, q);
    p', q', fits := PutChar(big, from, p, to, q, toLim, cs[k]);
    Spliced(before, to[..], toP, q, q');
    ArraySlice(to, to.Length, toP, q');
    ArraySlice(to, to.Length, q, q');
  }

  /** One turn of the loop: there is a next character, and it is converted if it fits. */
  method TurnBytes(big: bool, from: array<byte>, p: nat, fromLim: nat, to: array<byte>, ghost toP: nat, q: nat,
                   toLim: nat, ghost cs: seq<int>, ghost i: nat, ghost k: nat)
    returns (p': nat, q': nat, fits: bool)
    requires p < fromLim <= from.Length && toP <= q <= toLim <= to.Length && from != to
    requires i <= k <= |cs| && AllScalar(cs)
    requires from[p..fromLim] == Wire16(big, cs, k) && to[toP..q] == Text8(cs, i, k)
    modifies to
    ensures k < |cs| && (fits <==> toLim - q >= |Utf8(cs[k])|)
    ensures q <= q' <= toLim && Untouched(to, q, q')
    ensures to[toP..q'] == Text8(cs, i, if fits then k + 1 else k)
    ensures if fits then p < p' <= fromLim && from[p'..fromLim] == Wire16(big, cs, k + 1)
            else p' == p && q' == q
  {
    WireEnds(big, cs, k);
    p', q', fits := PutNext(big, from, p, fromLim, to, toP, q, toLim, cs, i, k);
  }

  /**
   * Converts as many whole characters as there is room for: those with indices i to k - 1.  It stops early only when
   * the next one does not fit, and the input is then left at that character.
   */
  method ToUtf8(big: bool, from: array<byte>, fromP: nat, fromLim: nat, to: array<byte>, toP: nat, toLim: nat,
                ghost cs: seq<int>, ghost i: nat)
    returns (fromP': nat, toP': nat, ghost k: nat)
    requires fromP <= fromLim <= from.Length && toP <= toLim <= to.Length && from != to
    requires i <= |cs| && AllScalar(cs) && from[fromP..fromLim] == Wire16(big, cs, i)
    modifies to
    ensures i <= k <= |cs| && fromP <= fromP' <= fromLim && toP <= toP' <= toLim
    ensures from[fromP'..fromLim] == Wire16(big, cs, k) && to[toP..toP'] == Text8(cs, i, k)
    ensures if fromP' == fromLim then k == |cs| else k < |cs| && toLim - toP' < |Utf8(cs[k])|
    ensures Untouched(to, toP, toP')
  {
    fromP', toP', k := fromP, toP, i;
    while fromP' != fromLim
      invariant i <= k <= |cs| && fromP <= fromP' <= fromLim && toP <= toP' <= toLim
      invariant from[fromP'..fromLim] == Wire16(big, cs, k) && to[toP..toP'] == Text8(cs, i, k)
      invariant Untouched(to, toP, toP')
      decreases fromLim - fromP'
    {
      var fits;
      fromP', toP', fits := TurnBytes(big, from, fromP', fromLim, to, toP, toP', toLim, cs, i, k);
      if !fits {
        return;
      }
      k := k + 1;
    }
    WireEnds(big, cs, k);
  }

  /**
   * The delivery loop: converts piece by piece into buffers of whatever sizes, as long as none is shorter than the
   * longest character.  The pieces together are the UTF-8 text of the whole input.
   */
  method Deliver(big: bool, from: array<byte>, ghost cs: seq<int>, sizes: nat -> nat) returns (data: seq<byte>)
    requires AllScalar(cs) && from[..] == Wire16(big, cs, 0) && forall n: nat :: sizes(n) >= 4
    ensures data == Text8(cs, 0, |cs|)
  {
    data := [];
    var s, n := 0, 0;
    ghost var k := 0;
    assert from[0..from.Length] == from[..];
    while true
      invariant s <= from.Length && k <= |cs|
      invariant from[s..from.Length] == Wire16(big, cs, k) && data == Text8(cs, 0, k)
      decreases |cs| - k, from.Length - s
    {
      var dataBuf := new byte[sizes(n)];
      var dataPtr;
      ghost var before := k;
      s, dataPtr, k := ToUtf8(big, from, s, from.Length, dataBuf, 0, dataBuf.Length, cs, k);
      data := data + dataBuf[0..dataPtr];
      Text8Concat(cs, 0, before, k);
      if s == from.Length {
        return;
      }
      ShortText(cs, before, k);
      n := n + 1;
    }
  }

  /** No characters make no bytes. */
  lemma {:induction false} ShortText(cs: seq<int>, i: nat, k: nat)
    requires i <= k <= |cs| && AllScalar(cs)
    ensures |Text8(cs, i, k)| >= k - i && (i == k ==> Text8(cs, i, k) == [])
    decreases k
  {
    if i < k {
      ShortText(cs, i, k - 1);
    }
  }

  // ---- the other way ----

  /** The bytes of UTF-8 for cs from index k on. */
  function Rest8(cs: seq<int>, k: nat): seq<byte>
    requires k <= |cs| && AllScalar(cs)
    decreases |cs| - k
  {
    if k == |cs| then [] else Utf8(cs[k]) + Rest8(cs, k + 1)
  }

  /** The units of UTF-16 for indices i to k - 1 of cs. */
  function Units(cs: seq<int>, i: nat, k: nat): seq<unit>
    requires i <= k <= |cs| && AllScalar(cs)
    decreases k
  {
    if k == i then [] else Units(cs, i, k - 1) + Utf16(cs[k - 1])
  }

  lemma {:induction false} NextRest(cs: seq<int>, k: nat, rest: seq<byte>)
    requires k < |cs| && AllScalar(cs) && rest == Rest8(cs, k)
    ensures var n := |Utf8(cs[k])|; n <= |rest| && rest[..n] == Utf8(cs[k]) && rest[n..] == Rest8(cs, k + 1)
  {}

  /** The bytes of the next character, and the rest behind them. */
  lemma {:induction false} NextBytes(from: array<byte>, p: nat, fromLim: nat, cs: seq<int>, k: nat)
    requires p <= fromLim <= from.Length && k < |cs| && AllScalar(cs) && from[p..fromLim] == Rest8(cs, k)
    ensures var n := |Utf8(cs[k])|;
            && p < p + n <= fromLim && from[p..p + n] == Utf8(cs[k]) && from[p + n..fromLim] == Rest8(cs, k + 1)
  {
    NextRest(cs, k, from[p..fromLim]);
    SliceCut(from, p, |Utf8(cs[k])|, fromLim);
  }

  lemma {:induction false} RestEnds(cs: seq<int>, k: nat)
    requires k <= |cs| && AllScalar(cs)
    ensures Rest8(cs, k) == [] <==> k == |cs|
  {}

  // The masked bits of two, three and four bytes, put together.

  function Merge2(a: int, b: int): int { a % 32 * 64 + b % 64 }

  function Merge3(a: int, b: int, c: int): int { a % 16 * 4096 + b % 64 * 64 + c % 64 }

  function Merge4(a: int, b: int, c: int, d: int): int { a % 8 * 262144 + b % 64 * 4096 + c % 64 * 64 + d % 64 }

  lemma {:induction false} Unpacked2(c: nat)
    requires 0x80 <= c < 0x800
    ensures var s := Utf8(c); |s| == 2 && Merge2(s[0], s[1]) == c
  {
    TrailBits(c % 64);
    Sixes(c);
  }

  lemma {:induction false} Unpacked3(c: nat)
    requires Scalar(c) && 0x800 <= c < 0x10000
    ensures var s := Utf8(c); |s| == 3 && Merge3(s[0], s[1], s[2]) == c
  {
    TrailBits(c % 64);
    TrailBits(c / 64 % 64);
    Sixes(c);
  }

  lemma {:induction false} Unpacked4(c: nat)
    requires Scalar(c) && c >= 0x10000
    ensures var s := Utf8(c); |s| == 4 && Merge4(s[0], s[1], s[2], s[3]) == c
  {
    TrailBits(c % 64);
    TrailBits(c / 64 % 64);
    TrailBits(c / 4096 % 64);
    Sixes(c);
  }

  /** The bits of a multi-byte character. */
  lemma {:induction false} Unpacked(c: nat)
    requires Scalar(c) && c >= 0x80
    ensures var s := Utf8(c);
            && (|s| == 2 ==> Merge2(s[0], s[1]) == c)
            && (|s| == 3 ==> Merge3(s[0], s[1], s[2]) == c)
            && (|s| == 4 ==> Merge4(s[0], s[1], s[2], s[3]) == c)
  {
    if c < 0x800 {
      Unpacked2(c);
    } else if c < 0x10000 {
      Unpacked3(c);
    } else {
      Unpacked4(c);
    }
  }

  lemma {:induction false} TrailBits(b: nat)
    requires b < 64
    ensures (0x80 + b) % 64 == b
  {}

  lemma {:induction false} Sixes(c: nat)
    ensures c / 64 * 64 + c % 64 == c
    ensures c / 4096 * 4096 + c / 64 % 64 * 64 + c % 64 == c
    ensures c / 262144 * 262144 + c / 4096 % 64 * 4096 + c / 64 % 64 * 64 + c % 64 == c
  {
    assert c / 64 / 64 == c / 4096 && c / 4096 / 64 == c / 262144;
  }

  /** Puts together the character at p. */
  method GetChar(from: array<byte>, p: nat, ghost c: nat) returns (n: int, length: nat)
    requires Scalar(c) && p + |Utf8(c)| <= from.Length && from[p..p + |Utf8(c)|] == Utf8(c)
    ensures n == c && length == |Utf8(c)|
  {
    ghost var w := from[p..p + |Utf8(c)|];
    assert forall x :: 0 <= x < |w| ==> from[p + x] == w[x];
    if c >= 0x80 {
      Unpacked(c);
    }
    if from[p] < 0x80 {
      return from[p], 1;
    }
    if from[p] < 0xE0 {
      return Merge2(from[p], from[p + 1]), 2;
    }
    if from[p] < 0xF0 {
      return Merge3(from[p], from[p + 1], from[p + 2]), 3;
    }
    return Merge4(from[p], from[p + 1], from[p + 2], from[p + 3]), 4;
  }

  /** Reads one character of UTF-8 and writes its units; the caller has seen that there is room. */
  method PutUnits(from: array<byte>, p: nat, to: array<unit>, q: nat, ghost c: nat) returns (p': nat, q': nat)
    requires Scalar(c) && p + |Utf8(c)| <= from.Length && from[p..p + |Utf8(c)|] == Utf8(c)
    requires q + |Utf16(c)| <= to.Length
    modifies to
    ensures p' == p + |Utf8(c)| && q' == q + |Utf16(c)|
    ensures to[q..q'] == Utf16(c) && Untouched(to, q, q')
  {
    var n, length := GetChar(from, p, c);
    if length < 4 {
      to[q] := n;
      return p + length, q + 1;
    }
    n := n - 0x10000;
    to[q] := n / 1024 + 0xD800;
    to[q + 1] := n % 1024 + 0xDC00;
    return p + 4, q + 2;
  }

  /** Is a lead byte of four in the table of byte types? */
  predicate IsLead4(b: byte) { 0xF0 <= b <= 0xF4 }

  lemma {:induction false} Lead4(c: nat)
    requires Scalar(c)
    ensures IsLead4(Utf8(c)[0]) <==> c >= 0x10000
  {}

  /** Stopped at character k with one slot of room left and two needed. */
  ghost predicate Stuck(cs: seq<int>, i: nat, k: nat, room: int)
    requires i <= k <= |cs| && AllScalar(cs)
  {
    k < |cs| && |Units(cs, i, k)| + 1 == room && cs[k] >= 0x10000
  }

  /** With this much room one slot will be left in front of a character that needs two. */
  ghost predicate GetsStuck(cs: seq<int>, i: nat, room: int)
    requires i <= |cs| && AllScalar(cs)
  {
    exists m :: i <= m <= |cs| && Stuck(cs, i, m, room)
  }

  lemma {:induction false} StuckHere(cs: seq<int>, i: nat, k: nat, room: int)
    requires i <= k <= |cs| && AllScalar(cs) && Stuck(cs, i, k, room)
    ensures GetsStuck(cs, i, room)
  {}

  /** One turn of the loop: converts the next character, or is stuck in front of it. */
  method TurnUnits(from: array<byte>, p: nat, fromLim: nat, to: array<unit>, ghost toP: nat, q: nat, toLim: nat,
                   ghost cs: seq<int>, ghost i: nat, ghost k: nat)
    returns (p': nat, q': nat, stuck: bool)
    requires i <= k <= |cs| && AllScalar(cs) && p < fromLim <= from.Length && from[p..fromLim] == Rest8(cs, k)
    requires toP <= q < toLim <= to.Length && to[toP..q] == Units(cs, i, k)
    modifies to
    ensures k < |cs| && q' <= toLim && (stuck <==> q + 1 == toLim && cs[k] >= 0x10000)
    ensures Untouched(to, q, q')
    ensures if stuck then p' == p && q' == q && to[toP..q'] == Units(cs, i, k)
            else p < p' <= fromLim && toP <= q' && from[p'..fromLim] == Rest8(cs, k + 1)
                 && to[toP..q'] == Units(cs, i, k + 1)
  {
    RestEnds(cs, k);
    FirstByte(from, p, fromLim, cs, k);
    stuck := IsLead4(from[p]) && q + 1 == toLim;
    p', q' := p, q;
    if !stuck {
      p', q' := PutNextUnits(from, p, fromLim, to, toP, q, cs, i, k);
    }
  }

  /**
   * Converts characters i to k - 1.  With exactly one slot left in front of a character that needs two the loop makes
   * no more progress and would run for ever; stuck reports that.
   */
  method ToUtf16(from: array<byte>, fromP: nat, fromLim: nat, to: array<unit>, toP: nat, toLim: nat,
                 ghost cs: seq<int>, ghost i: nat)
    returns (fromP': nat, toP': nat, stuck: bool, ghost k: nat)
    requires fromP <= fromLim <= from.Length && toP <= toLim <= to.Length
    requires i <= |cs| && AllScalar(cs) && from[fromP..fromLim] == Rest8(cs, i)
    modifies to
    ensures i <= k <= |cs| && fromP <= fromP' <= fromLim && toP <= toP' <= toLim
    ensures from[fromP'..fromLim] == Rest8(cs, k) && to[toP..toP'] == Units(cs, i, k)
    ensures stuck <==> GetsStuck(cs, i, toLim - toP)
    ensures stuck ==> Stuck(cs, i, k, toLim - toP)
    ensures !stuck ==> fromP' == fromLim || toP' == toLim
    ensures Untouched(to, toP, toP')
  {
    fromP', toP', k, stuck := fromP, toP, i, false;
    while fromP' != fromLim && toP' != toLim
      invariant i <= k <= |cs| && fromP <= fromP' <= fromLim && toP <= toP' <= toLim
      invariant from[fromP'..fromLim] == Rest8(cs, k) && to[toP..toP'] == Units(cs, i, k)
      invariant Untouched(to, toP, toP')
      decreases fromLim - fromP'
    {
      fromP', toP', stuck := TurnUnits(from, fromP', fromLim, to, toP, toP', toLim, cs, i, k);
      if stuck {
        StuckHere(cs, i, k, toLim - toP);
        return;
      }
      k := k + 1;
    }
    RestEnds(cs, k);
    NotStuck(cs, i, k, toLim - toP);
  }

  lemma {:induction false} UnitsGrow(cs: seq<int>, i: nat, k: nat, m: nat)
    requires i <= k <= m <= |cs| && AllScalar(cs)
    ensures |Units(cs, i, k)| + m - k <= |Units(cs, i, m)|
    decreases m
  {
    if k < m {
      UnitsGrow(cs, i, k, m - 1);
    }
  }

  /** A loop that has used up the input or the room was never stuck and never will be. */
  lemma {:induction false} NotStuck(cs: seq<int>, i: nat, k: nat, room: int)
    requires i <= k <= |cs| && AllScalar(cs) && |Units(cs, i, k)| <= room
    requires k == |cs| || |Units(cs, i, k)| == room
    ensures !GetsStuck(cs, i, room)
  {
    forall m | i <= m <= |cs|
      ensures !Stuck(cs, i, m, room)
    {
      if m < k {
        UnitsGrow(cs, i, m + 1, k);
      } else {
        UnitsGrow(cs, i, k, m);
      }
    }
  }

  /** The first byte of the next character tells whether it needs two units. */
  lemma {:induction false} FirstByte(from: array<byte>, p: nat, fromLim: nat, cs: seq<int>, k: nat)
    requires p < fromLim <= from.Length && k < |cs| && AllScalar(cs) && from[p..fromLim] == Rest8(cs, k)
    ensures IsLead4(from[p]) <==> |Utf16(cs[k])| == 2
  {
    NextRest(cs, k, from[p..fromLim]);
    assert from[p] == from[p..fromLim][..|Utf8(cs[k])|][0];
    Lead4(cs[k]);
  }

  method PutNextUnits(from: array<byte>, p: nat, fromLim: nat, to: array<unit>, ghost toP: nat, q: nat,
                      ghost cs: seq<int>, ghost i: nat, ghost k: nat)
    returns (p': nat, q': nat)
    requires i <= k < |cs| && AllScalar(cs) && p <= fromLim <= from.Length && from[p..fromLim] == Rest8(cs, k)
    requires toP <= q && q + |Utf16(cs[k])| <= to.Length && to[toP..q] == Units(cs, i, k)
    modifies to
    ensures p < p' <= fromLim && q' == q + |Utf16(cs[k])|
    ensures from[p'..fromLim] == Rest8(cs, k + 1) && to[toP..q'] == Units(cs, i, k + 1)
    ensures Untouched(to, q, q')
  {
    NextBytes(from, p, fromLim, cs, k);
    p', q' := AppendUnits(from, p, to, toP, q, cs[k]);
  }

  /** The units of a character behind those written before. */
  method AppendUnits(from: array<byte>, p: nat, to: array<unit>, ghost toP: nat, q: nat, ghost c: nat)
    returns (p': nat, q': nat)
    requires Scalar(c) && p + |Utf8(c)| <= from.Length && from[p..p + |Utf8(c)|] == Utf8(c)
    requires toP <= q && q + |Utf16(c)| <= to.Length
    modifies to
    ensures p' == p + |Utf8(c)| && q' == q + |Utf16(c)|
    ensures to[toP..q'] == old(to[toP..q]) + Utf16(c) && Untouched(to, q, q')
  {
    ghost var before := to[..];
    ArraySlice(to, to.Length, toP, q);
    p', q' := PutUnits(from, p, to, q, c);
    Spliced(before, to[..], toP, q, q');
    ArraySlice(to, to.Length, toP, q');
    ArraySlice(to, to.Length, q, q');
  }
}
