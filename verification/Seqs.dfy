/** Small facts about sequences. */
module Seqs {

  /** s without its element at n. */
  function Without<T>(s: seq<T>, n: nat): seq<T>
    requires n < |s|
  {
    s[..n] + s[n + 1..]
  }

  lemma {:induction false} Assoc<T>(a: seq<T>, b: seq<T>, c: seq<T>)
    ensures (a + b) + c == a + (b + c)
  {}

  lemma {:induction false} WithoutMiddle<T>(a: seq<T>, b: seq<T>, c: seq<T>, k: nat)
    requires k < |b|
    ensures Without(a + b + c, |a| + k) == a + Without(b, k) + c
    ensures (a + b + c)[|a| + k] == b[k]
  {}

  /** Losing one element of the middle part is losing one element of the whole. */
  lemma {:induction false} WithoutInMiddle<T>(whole: seq<T>, whole': seq<T>, a: seq<T>, b: seq<T>, b': seq<T>,
                                              c: seq<T>, k: nat)
    requires whole == a + b + c && whole' == a + b' + c && k < |b| && b' == Without(b, k)
    ensures |a| + k < |whole| && whole' == Without(whole, |a| + k)
  {}

  lemma {:induction false} DropLast<T>(a: seq<T>, b: seq<T>)
    requires b != []
    ensures (a + b)[..|a + b| - 1] == a + b[..|b| - 1]
    ensures (a + b)[|a + b| - 1] == b[|b| - 1]
  {}

  lemma {:induction false} DropConcat<T>(a: seq<T>, b: seq<T>, n: nat)
    requires n <= |a|
    ensures (a + b)[n..] == a[n..] + b
  {}

  lemma {:induction false} ArraySlice<T>(a: array<T>, end: nat, p: nat, q: nat)
    requires p <= q <= end <= a.Length
    ensures a[..end][p..q] == a[p..q]
  {}

  lemma {:induction false} Cut<T>(s: seq<T>, i: nat)
    requires i < |s|
    ensures s == s[..i] + [s[i]] + s[i + 1..]
    ensures s[..i + 1] == s[..i] + [s[i]]
    ensures s[i..] == [s[i]] + s[i + 1..]
  {}

  /** s with its element at n replaced by the elements of t. */
  function Splice<T>(s: seq<T>, n: nat, t: seq<T>): seq<T>
    requires n < |s|
  {
    s[..n] + t + s[n + 1..]
  }

  lemma {:induction false} SpliceNone<T>(s: seq<T>, n: nat)
    requires n < |s|
    ensures s[..n] + s[n + 1..] == Splice(s, n, [])
  {}

  lemma {:induction false} SpliceOne<T>(s: seq<T>, n: nat, x: T)
    requires n < |s|
    ensures s[n := x] == Splice(s, n, [x])
  {}

  lemma {:induction false} SpliceTwo<T>(s: seq<T>, n: nat, x: T, y: T)
    requires n < |s|
    ensures s[n := x][..n + 1] + [y] + s[n := x][n + 1..] == Splice(s, n, [x, y])
  {}

  lemma {:induction false} StorePair<T>(s: seq<T>, j: nat, x: T, y: T)
    requires 0 < j < |s|
    ensures s[j - 1 := x][j := y] == s[..j - 1] + [x, y] + s[j + 1..]
  {}

  // ---- the first element with a property ----

  /** Index of the first of the first n elements with property p, or -1. */
  ghost function FirstTo<T>(s: seq<T>, p: T -> bool, n: nat): (k: int)
    requires n <= |s|
    ensures -1 <= k < n
  {
    if n == 0 then -1
    else if FirstTo(s, p, n - 1) >= 0 then FirstTo(s, p, n - 1)
    else if p(s[n - 1]) then n - 1
    else -1
  }

  lemma {:induction false} FirstIsFirst<T>(s: seq<T>, p: T -> bool, n: nat)
    requires n <= |s|
    ensures var k := FirstTo(s, p, n);
            && (k >= 0 ==> p(s[k]))
            && (forall j :: 0 <= j < (if k >= 0 then k else n) ==> !p(s[j]))
  {
    if n > 0 {
      FirstIsFirst(s, p, n - 1);
    }
  }

  lemma {:induction false} FirstUnique<T>(s: seq<T>, p: T -> bool, k: int)
    requires -1 <= k < |s| && forall j :: 0 <= j < |s| ==> (p(s[j]) <==> j == k)
    ensures FirstTo(s, p, |s|) == k
  {
    FirstIsFirst(s, p, |s|);
    assert k >= 0 ==> p(s[k]);
  }

  lemma {:induction false} FirstLocal<T>(a: seq<T>, b: seq<T>, p: T -> bool, n: nat)
    requires n <= |a| && n <= |b| && forall k :: 0 <= k < n ==> a[k] == b[k]
    ensures FirstTo(a, p, n) == FirstTo(b, p, n)
  {
    if n > 0 {
      FirstLocal(a, b, p, n - 1);
    }
  }

  lemma {:induction false} FirstConcat<T>(a: seq<T>, b: seq<T>, p: T -> bool, n: nat)
    requires n <= |b|
    ensures FirstTo(a + b, p, |a| + n)
         == if FirstTo(a, p, |a|) >= 0 then FirstTo(a, p, |a|)
            else if FirstTo(b, p, n) >= 0 then |a| + FirstTo(b, p, n) else -1
  {
    if n > 0 {
      FirstConcat(a, b, p, n - 1);
    } else {
      FirstLocal(a + b, a, p, |a|);
    }
  }

  lemma {:induction false} FirstOfThree<T>(a: seq<T>, b: seq<T>, c: seq<T>, p: T -> bool)
    requires FirstTo(a, p, |a|) == -1
    ensures FirstTo(b, p, |b|) == -1 ==> FirstTo(a + b, p, |a + b|) == -1
    ensures FirstTo(b, p, |b|) >= 0 ==> FirstTo(a + b + c, p, |a + b + c|) == |a| + FirstTo(b, p, |b|)
  {
    FirstConcat(a, b, p, |b|);
    FirstConcat(a + b, c, p, |c|);
  }

  /** A stronger property is first met where a weaker one is exactly when that place has it too. */
  lemma {:induction false} FirstAgree<T>(s: seq<T>, p: T -> bool, q: T -> bool, n: nat)
    requires n <= |s| && forall i :: 0 <= i < n && p(s[i]) ==> q(s[i])
    ensures FirstTo(s, p, n) == FirstTo(s, q, n) <==> FirstTo(s, q, n) == -1 || p(s[FirstTo(s, q, n)])
  {
    FirstIsFirst(s, p, n);
    FirstIsFirst(s, q, n);
  }
}
