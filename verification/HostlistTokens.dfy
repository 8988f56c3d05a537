/** Cutting a printed list back into its groups. */
module HostlistTokens {
  import opened HostlistParse

  /** Bracket depth after the first k characters of t. */
  function Level(t: string, k: nat): int
    requires k <= |t|
  {
    if k == 0 then 0 else LevelAfter(t[k - 1], Level(t, k - 1))
  }

  /** A text that comes back whole as one token: brackets balanced, separators only inside them. */
  ghost predicate TokenLike(t: string) {
    && t != "" && Level(t, |t|) == 0
    && forall k :: 0 <= k < |t| ==> Level(t, k) != 0 || !IsSep(t[k])
  }

  lemma {:induction false} Scan(s: string, i: nat, t: string, k: nat)
    requires TokenLike(t) && k <= |t| && i + |t| <= |s| && s[i..i + |t|] == t
    ensures TokenEnd(s, i, 0) == TokenEnd(s, i + k, Level(t, k))
  {
    if k > 0 {
      Scan(s, i, t, k - 1);
      assert s[i + k - 1] == t[k - 1];
    }
  }

  /** Texts k and up, joined by commas. */
  function JoinTexts(ts: seq<string>, k: nat): string
    requires k < |ts|
    decreases |ts| - k
  {
    if k + 1 == |ts| then ts[k] else ts[k] + "," + JoinTexts(ts, k + 1)
  }

  /** A token-like text at i that ends at the end of s or at a separator is the next token. */
  lemma {:induction false} OneToken(s: string, i: nat, t: string)
    requires TokenLike(t) && i + |t| <= |s| && s[i..i + |t|] == t
    requires i + |t| == |s| || IsSep(s[i + |t|])
    ensures Tokens(s, i) == [t] + Tokens(s, i + |t|)
  {
    assert Level(t, 0) == 0;
    assert s[i] == t[0];
    Scan(s, i, t, |t|);
  }

  lemma {:induction false} SliceSplit(s: string, i: nat, t: string, c: char, rest: string)
    requires i <= |s| && s[i..] == t + [c] + rest
    ensures i + |t| < |s| && s[i..i + |t|] == t && s[i + |t|] == c && s[i + |t| + 1..] == rest
  {
    assert s[i..][|t|] == c;
    assert s[i..i + |t|] == s[i..][..|t|];
    assert s[i + |t| + 1..] == s[i..][|t| + 1..];
  }

  lemma {:induction false} LastToken(s: string, i: nat, t: string)
    requires i <= |s| && s[i..] == t && TokenLike(t)
    ensures Tokens(s, i) == [t]
  {
    assert s[i..i + |t|] == t;
    OneToken(s, i, t);
  }

  lemma {:induction false} FrontToken(s: string, i: nat, t: string, rest: string)
    requires i <= |s| && TokenLike(t) && s[i..] == t + "," + rest
    ensures i + |t| + 1 <= |s| && s[i + |t| + 1..] == rest
    ensures Tokens(s, i) == [t] + Tokens(s, i + |t| + 1)
  {
    SliceSplit(s, i, t, ',', rest);
    OneToken(s, i, t);
    CommaSkipped(s, i + |t|);
  }

  lemma {:induction false} LastTokens(s: string, i: nat, ts: seq<string>, k: nat)
    requires i <= |s| && k + 1 == |ts| && s[i..] == ts[k] && TokenLike(ts[k])
    ensures Tokens(s, i) == ts[k..]
  {
    LastToken(s, i, ts[k]);
  }

  /** The first of several texts is the first token; j is behind the comma that ends it. */
  lemma {:induction false} FrontTokens(s: string, i: nat, t: string, rest: string) returns (j: nat)
    requires i <= |s| && s[i..] == t + "," + rest && TokenLike(t)
    ensures j <= |s| && s[j..] == rest && Tokens(s, i) == [t] + Tokens(s, j)
  {
    j := i + |t| + 1;
    FrontToken(s, i, t, rest);
  }

  /** Token-like texts joined by commas are cut back into those texts. */
  lemma {:induction false} TokensOfJoin(s: string, i: nat, ts: seq<string>, k: nat)
    requires i <= |s| && k < |ts| && s[i..] == JoinTexts(ts, k) && forall j :: k <= j < |ts| ==> TokenLike(ts[j])
    ensures Tokens(s, i) == ts[k..]
    decreases |ts| - k
  {
    if k + 1 == |ts| {
      LastTokens(s, i, ts, k);
    } else {
      var j := FrontTokens(s, i, ts[k], JoinTexts(ts, k + 1));
      TokensOfJoin(s, j, ts, k + 1);
      assert [ts[k]] + ts[k + 1..] == ts[k..];
    }
  }

  lemma {:induction false} CommaSkipped(s: string, i: nat)
    requires i < |s| && s[i] == ','
    ensures Tokens(s, i) == Tokens(s, i + 1)
  {}

  predicate Plain(s: string) { forall k :: 0 <= k < |s| ==> !IsSep(s[k]) && s[k] != '[' && s[k] != ']' }

  lemma {:induction false} LevelFlat(t: string, i: nat, j: nat)
    requires i <= j <= |t| && forall k :: i <= k < j ==> t[k] != '[' && t[k] != ']'
    ensures Level(t, j) == Level(t, i)
  {
    if i < j {
      LevelFlat(t, i, j - 1);
    }
  }

  lemma {:induction false} PlainTokenLike(t: string)
    requires t != "" && Plain(t)
    ensures TokenLike(t)
  {
    LevelFlat(t, 0, |t|);
  }

  lemma {:induction false} BracketTokenLike(a: string, b: string)
    requires Plain(a) && forall k :: 0 <= k < |b| ==> b[k] != '[' && b[k] != ']'
    ensures TokenLike(a + "[" + b + "]")
  {
    var t := a + "[" + b + "]";
    var m, n := |a|, |a| + 1 + |b|;
    forall k | 0 <= k <= n
      ensures Level(t, k) == if k <= m then 0 else 1
    {
      if k <= m {
        LevelFlat(t, 0, k);
      } else {
        LevelFlat(t, 0, m);
        LevelFlat(t, m + 1, k);
      }
    }
    assert Level(t, n + 1) == LevelAfter(t[n], Level(t, n));
  }
}
