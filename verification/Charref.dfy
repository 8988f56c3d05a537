/** Character references and the encoders. */
module Charref {
  import opened Bytes
  import opened Unicode

  const INT_MAX: int := 0x7FFF_FFFF

  /** The value of a digit in base 16, or -1. */
  function Digit(c: char): (d: int)
    ensures -1 <= d < 16
  {
    if '0' <= c <= '9' then (c - '0') as int
    else if 'A' <= c <= 'F' then (c - 'A') as int + 10
    else if 'a' <= c <= 'f' then (c - 'a') as int + 10
    else -1
  }

  /** The digits by position, in either case. */
  lemma {:induction false} DigitReads(k: nat)
    requires k < 16
    ensures Digit("0123456789ABCDEF"[k]) == k && Digit("0123456789abcdef"[k]) == k
  {}

  /** No other character is a digit. */
  lemma {:induction false} DigitsOnly(c: char)
    ensures Digit(c) >= 0 <==> c in "0123456789ABCDEFabcdef"
  {
    if Digit(c) >= 0 {
      var k := Digit(c);
      assert c == "0123456789ABCDEFabcdef"[if 'a' <= c then k + 6 else k];
    }
  }

  /** The last digit counts once, what is before it as often as the base says. */
  lemma {:induction false} NumberReads(s: string, c: char, base: nat)
    requires Digits(s, base) && 0 <= Digit(c) < base
    ensures Digits(s + [c], base) && Number(s + [c], base) == Number(s, base) * base + Digit(c)
  {
    assert (s + [c])[..|s|] == s;
  }

  predicate Digits(s: string, base: nat) { forall i :: 0 <= i < |s| ==> 0 <= Digit(s[i]) < base }

  /** The number a digit string denotes. */
  function Number(s: string, base: nat): nat
    requires Digits(s, base)
  {
    if s == "" then 0 else Number(s[..|s| - 1], base) * base + Digit(s[|s| - 1])
  }

  lemma {:induction false} NumberGrows(s: string, base: nat, n: nat)
    requires Digits(s, base) && n <= |s| && base > 0
    ensures Number(s[..n], base) <= Number(s, base)
  {
    if n < |s| {
      var front := s[..|s| - 1];
      NumberGrows(front, base, n);
      assert front[..n] == s[..n];
      Scale(Number(front, base), base);
    } else {
      assert s[..n] == s;
    }
  }

  lemma {:induction false} Scale(a: nat, base: nat)
    requires base > 0
    ensures a <= a * base
  {}

  /** Is the number one a document may name? */
  method CheckCharRefNumber(result: int) returns (r: int)
    requires 0 <= result < 0x110000
    ensures r == if XmlChar(result) then result else -1
  {
    var page := result / 256;
    if 0xD8 <= page <= 0xDF {
      return -1;
    }
    if page == 0 && IsNonXml(result) {
      return -1;
    }
    if page == 0xFF && (result == 0xFFFE || result == 0xFFFF) {
      return -1;
    }
    return result;
  }

  /** The bytes that the Latin-1 table marks as no XML characters. */
  predicate IsNonXml(b: byte) { b < 0x20 && b != 0x9 && b != 0xA && b != 0xD }

  /** One more digit, as the int arithmetic has it: nothing overflows. */
  method NextDigit(result: int, c: char, base: nat) returns (r: int)
    requires 0 <= result < 0x110000 && base in {10, 16} && 0 <= Digit(c) < base
    ensures r == result * base + Digit(c) <= INT_MAX
  {
    r := result * base;
    r := r + Digit(c);
  }

  /** The same, for digit k of a text whose first k digits have been read. */
  method AddDigit(result: int, ghost digits: string, ghost k: nat, c: char, base: nat) returns (r: int)
    requires base in {10, 16} && Digits(digits, base) && k < |digits| && c == digits[k]
    requires 0 <= result == Number(digits[..k], base) < 0x110000
    ensures r == Number(digits[..k + 1], base)
  {
    assert digits[..k + 1][..k] == digits[..k];
    r := NextDigit(result, c, base);
  }

  /** ptr is behind the "&#" of a reference whose text ends with a semicolon. */
  method CharRefNumber(text: string) returns (r: int)
    requires |text| > 0 && text[|text| - 1] == ';'
    requires var hex := text[0] == 'x'; Digits(text[if hex then 1 else 0..|text| - 1], if hex then 16 else 10)
    ensures var hex := text[0] == 'x';
            var n := Number(text[if hex then 1 else 0..|text| - 1], if hex then 16 else 10);
            r == if XmlChar(n) then n else -1
  {
    var hex := text[0] == 'x';
    var base := if hex then 16 else 10;
    var start := if hex then 1 else 0;
    ghost var digits := text[start..|text| - 1];
    var ptr, result := start, 0;
    assert digits[..0] == "";
    while text[ptr] != ';'
      invariant start <= ptr < |text| && result == Number(digits[..ptr - start], base) < 0x110000
      decreases |text| - ptr
    {
      assert ptr != |text| - 1 && text[ptr] == digits[ptr - start];
      result := AddDigit(result, digits, ptr - start, text[ptr], base);
      if result >= 0x110000 {
        NumberGrows(digits, base, ptr - start + 1);
        return -1;
      }
      ptr := ptr + 1;
    }
    NoSemicolonBefore(text, start, base);
    assert digits[..ptr - start] == digits;
    r := CheckCharRefNumber(result);
  }

  lemma {:induction false} NoSemicolonBefore(text: string, start: nat, base: nat)
    requires start < |text| && Digits(text[start..|text| - 1], base)
    ensures forall i :: start <= i < |text| - 1 ==> text[i] != ';'
  {
    forall i | start <= i < |text| - 1
      ensures text[i] != ';'
    {
      assert text[start..|text| - 1][i - start] == text[i];
    }
  }

  /** XmlUtf8Encode. */
  method Utf8Encode(c: int, buf: array<byte>) returns (n: nat)
    requires buf.Length >= 4
    modifies buf
    ensures if 0 <= c < 0x110000 then n == |Utf8(c)| && buf[..n] == Utf8(c) else n == 0 && buf[..] == old(buf[..])
    ensures buf[n..] == old(buf[n..])
  {
    if c < 0 {
      return 0;
    }
    if c < 0x80 {
      buf[0] := c;
      return 1;
    }
    if c < 0x800 {
      buf[0], buf[1] := c / 64 + 0xC0, c % 64 + 0x80;
      return 2;
    }
    if c < 0x10000 {
      buf[0], buf[1], buf[2] := c / 4096 + 0xE0, c / 64 % 64 + 0x80, c % 64 + 0x80;
      return 3;
    }
    if c < 0x110000 {
      buf[0], buf[1], buf[2], buf[3] := c / 262144 + 0xF0, c / 4096 % 64 + 0x80, c / 64 % 64 + 0x80, c % 64 + 0x80;
      return 4;
    }
    return 0;
  }

  /** XmlUtf16Encode. */
  method Utf16Encode(charNum: int, buf: array<unit>) returns (n: nat)
    requires buf.Length >= 2
    modifies buf
    ensures if 0 <= charNum < 0x110000 then n == |Utf16(charNum)| && buf[..n] == Utf16(charNum)
            else n == 0 && buf[..] == old(buf[..])
    ensures buf[n..] == old(buf[n..])
  {
    if charNum < 0 {
      return 0;
    }
    if charNum < 0x10000 {
      buf[0] := charNum;
      return 1;
    }
    if charNum < 0x110000 {
      var v := charNum - 0x10000;
      buf[0], buf[1] := v / 1024 + 0xD800, v % 1024 + 0xDC00;
      return 2;
    }
    return 0;
  }
}
