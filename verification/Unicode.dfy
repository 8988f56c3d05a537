/** Unicode scalar values and their encodings: section 3 of RFC 3629, sections 2.1 and 2.2 of RFC 2781. */
module Unicode {
  import opened Bytes

  type unit = x: int | 0 <= x < 0x10000

  predicate Scalar(c: int) { 0 <= c < 0xD800 || 0xE000 <= c < 0x110000 }

  /** Char of section 2.2 of XML 1.0. */
  predicate XmlChar(c: int) {
    c == 0x9 || c == 0xA || c == 0xD || 0x20 <= c <= 0xD7FF || 0xE000 <= c <= 0xFFFD || 0x10000 <= c <= 0x10FFFF
  }

  /** The bytes of UTF-8. */
  function Utf8(c: nat): (s: seq<byte>)
    requires c < 0x110000
    ensures 1 <= |s| <= 4
  {
    if c < 0x80 then [c]
    else if c < 0x800 then [0xC0 + c / 64, 0x80 + c % 64]
    else if c < 0x10000 then [0xE0 + c / 4096, 0x80 + c / 64 % 64, 0x80 + c % 64]
    else [0xF0 + c / 262144, 0x80 + c / 4096 % 64, 0x80 + c / 64 % 64, 0x80 + c % 64]
  }

  /** The units of UTF-16. */
  function Utf16(c: nat): (s: seq<unit>)
    requires c < 0x110000
    ensures 1 <= |s| <= 2
  {
    if c < 0x10000 then [c] else [0xD800 + (c - 0x10000) / 1024, 0xDC00 + (c - 0x10000) % 1024]
  }

  predicate Trail(b: byte) { 0x80 <= b < 0xC0 }

  /** The value carried by the bits of a lead byte and its trail bytes. */
  function Joined(lead: int, trail: seq<byte>): int {
    if trail == [] then lead else Joined(lead, trail[..|trail| - 1]) * 64 + trail[|trail| - 1] as int - 0x80
  }

  /** The first scalar value in well-formed UTF-8, and its length; length 0 when there is none. */
  function DecodeUtf8(s: seq<byte>): (int, nat) {
    if |s| >= 1 && s[0] < 0x80 then (s[0] as int, 1)
    else if |s| >= 2 && 0xC2 <= s[0] < 0xE0 && Trail(s[1]) then (Joined(s[0] as int - 0xC0, s[1..2]), 2)
    else if |s| >= 3 && 0xE0 <= s[0] < 0xF0 && Trail(s[1]) && Trail(s[2]) then
      var c := Joined(s[0] as int - 0xE0, s[1..3]);
      if c >= 0x800 && Scalar(c) then (c, 3) else (0, 0)
    else if |s| >= 4 && 0xF0 <= s[0] < 0xF5 && Trail(s[1]) && Trail(s[2]) && Trail(s[3]) then
      var c := Joined(s[0] as int - 0xF0, s[1..4]);
      if c >= 0x10000 && Scalar(c) then (c, 4) else (0, 0)
    else (0, 0)
  }

  /** The first scalar value in well-formed UTF-16, and how many units it takes. */
  function DecodeUtf16(s: seq<unit>): (int, nat) {
    if |s| >= 1 && Scalar(s[0]) then (s[0] as int, 1)
    else if |s| >= 2 && 0xD800 <= s[0] < 0xDC00 && 0xDC00 <= s[1] < 0xE000 then
      ((s[0] as int - 0xD800) * 1024 + (s[1] as int - 0xDC00) + 0x10000, 2)
    else (0, 0)
  }

  lemma {:induction false} JoinedOne(c: nat)
    ensures Joined(c / 64, [0x80 + c % 64]) == c
  {
    assert [0x80 + c % 64][..0] == [];
  }

  lemma {:induction false} JoinedTwo(c: nat)
    ensures Joined(c / 4096, [0x80 + c / 64 % 64, 0x80 + c % 64]) == c
  {
    JoinedOne(c / 64);
    assert c / 64 / 64 == c / 4096;
    assert [0x80 + c / 64 % 64, 0x80 + c % 64][..1] == [0x80 + c / 64 % 64];
  }

  lemma {:induction false} JoinedThree(c: nat)
    ensures Joined(c / 262144, [0x80 + c / 4096 % 64, 0x80 + c / 64 % 64, 0x80 + c % 64]) == c
  {
    JoinedTwo(c / 64);
    assert c / 64 / 4096 == c / 262144 && c / 64 / 64 == c / 4096;
    assert [0x80 + c / 4096 % 64, 0x80 + c / 64 % 64, 0x80 + c % 64][..2] == [0x80 + c / 4096 % 64, 0x80 + c / 64 % 64];
  }

  /** The encoding of every scalar value is well formed, and means that value. */
  lemma {:induction false} Utf8RoundTrip(c: nat, rest: seq<byte>)
    requires Scalar(c)
    ensures DecodeUtf8(Utf8(c) + rest) == (c, |Utf8(c)|)
  {
    var s := Utf8(c) + rest;
    assert forall k :: 0 <= k < |Utf8(c)| ==> s[k] == Utf8(c)[k];
    if 0x80 <= c < 0x800 {
      JoinedOne(c);
      assert s[1..2] == [0x80 + c % 64];
    } else if 0x800 <= c < 0x10000 {
      JoinedTwo(c);
      assert s[1..3] == [0x80 + c / 64 % 64, 0x80 + c % 64];
    } else if c >= 0x10000 {
      JoinedThree(c);
      assert s[1..4] == [0x80 + c / 4096 % 64, 0x80 + c / 64 % 64, 0x80 + c % 64];
    }
  }

  lemma {:induction false} Utf16RoundTrip(c: nat, rest: seq<unit>)
    requires Scalar(c)
    ensures DecodeUtf16(Utf16(c) + rest) == (c, |Utf16(c)|)
  {
    var s := Utf16(c) + rest;
    assert forall k :: 0 <= k < |Utf16(c)| ==> s[k] == Utf16(c)[k];
  }

  /** The examples of section 7 of RFC 3629 and section 5 of RFC 2781, and one more of two bytes. */
  lemma {:induction false} EncodingExamples()
    ensures Utf8(0x41) == [0x41] && Utf8(0xE9) == [0xC3, 0xA9]
    ensures Utf8(0x2262) == [0xE2, 0x89, 0xA2] && Utf8(0x391) == [0xCE, 0x91]
    ensures Utf8(0x65E5) == [0xE6, 0x97, 0xA5] && Utf8(0x233B4) == [0xF0, 0xA3, 0x8E, 0xB4]
    ensures Utf16(0x52) == [0x52] && Utf16(0x12345) == [0xD808, 0xDF45]
  {
    assert 0x65E5 / 4096 == 6 && 0x65E5 / 64 % 64 == 0x17 && 0x65E5 % 64 == 0x25;
    assert 0x2262 / 4096 == 2 && 0x2262 / 64 % 64 == 9 && 0x2262 % 64 == 0x22;
    assert 0x233B4 / 4096 % 64 == 0x23 && 0x233B4 / 64 % 64 == 0xE && 0x233B4 % 64 == 0x34;
  }
}
