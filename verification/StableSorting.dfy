/** What it means to sort a sequence stably by a comparison of keys. */
module StableSorting {
  import opened Seqs

  /** Opposite signs both ways round, and transitive: a comparison that is fit for sorting. */
  ghost predicate Consistent(cmp: (int, int) -> int) {
    && (forall x, y :: cmp(x, y) < 0 <==> cmp(y, x) > 0)
    && (forall x, y, z :: cmp(x, y) <= 0 && cmp(y, z) <= 0 ==> cmp(x, z) <= 0)
  }

  lemma {:induction false} Below(x: int, y: int, z: int, cmp: (int, int) -> int)
    requires Consistent(cmp) && cmp(x, y) < 0 && (y == z || cmp(y, z) <= 0)
    ensures cmp(x, z) < 0
  {
    assert cmp(y, x) > 0;
    assert cmp(y, z) <= 0 && cmp(z, x) <= 0 ==> cmp(y, x) <= 0;
    assert cmp(x, z) < 0 <==> cmp(z, x) > 0;
  }

  lemma {:induction false} Opposite(x: int, y: int, cmp: (int, int) -> int)
    requires Consistent(cmp) && cmp(x, y) > 0
    ensures cmp(y, x) < 0
  {}

  /** The elements of s that compare equal to d, in their order. */
  ghost function Like<T>(s: seq<T>, key: T -> int, cmp: (int, int) -> int, d: int): seq<T> {
    if s == [] then []
    else Like(s[..|s| - 1], key, cmp, d) + if cmp(key(s[|s| - 1]), d) == 0 then [s[|s| - 1]] else []
  }

  /** Equal elements come in the same order in both. */
  ghost predicate SameLikes<T>(s: seq<T>, r: seq<T>, key: T -> int, cmp: (int, int) -> int) {
    forall d :: Like(r, key, cmp, d) == Like(s, key, cmp, d)
  }

  ghost predicate InOrder<T>(s: seq<T>, key: T -> int, cmp: (int, int) -> int, i: int, j: int) {
    0 <= i < j < |s| ==> cmp(key(s[i]), key(s[j])) <= 0
  }

  ghost predicate Sorted<T>(s: seq<T>, key: T -> int, cmp: (int, int) -> int) {
    forall i, j :: InOrder(s, key, cmp, i, j)
  }

  lemma {:induction false} LikeConcat<T>(a: seq<T>, b: seq<T>, key: T -> int, cmp: (int, int) -> int, d: int)
    ensures Like(a + b, key, cmp, d) == Like(a, key, cmp, d) + Like(b, key, cmp, d)
  {
    if b == [] {
      assert a + b == a;
      assert Like(a, key, cmp, d) + [] == Like(a, key, cmp, d);
    } else {
      var n := |b| - 1;
      DropLast(a, b);
      LikeConcat(a, b[..n], key, cmp, d);
      Assoc(Like(a, key, cmp, d), Like(b[..n], key, cmp, d), if cmp(key(b[n]), d) == 0 then [b[n]] else []);
    }
  }

  lemma {:induction false} LikeNothing<T>(s: seq<T>, key: T -> int, cmp: (int, int) -> int, d: int)
    requires forall k :: 0 <= k < |s| ==> cmp(key(s[k]), d) != 0
    ensures Like(s, key, cmp, d) == []
  {
    if s != [] {
      LikeNothing(s[..|s| - 1], key, cmp, d);
    }
  }

  lemma {:induction false} LikeOne<T>(x: T, key: T -> int, cmp: (int, int) -> int, d: int)
    ensures Like([x], key, cmp, d) == if cmp(key(x), d) == 0 then [x] else []
  {
    assert [x][..0] == [];
  }

  /** How often an element occurs is seen among the elements like it. */
  lemma {:induction false} LikeCounts<T>(s: seq<T>, key: T -> int, cmp: (int, int) -> int, x: T)
    requires Consistent(cmp)
    ensures multiset(Like(s, key, cmp, key(x)))[x] == multiset(s)[x]
  {
    if s != [] {
      var n := |s| - 1;
      LikeCounts(s[..n], key, cmp, x);
      assert s == s[..n] + [s[n]];
    }
  }

  /** A rearrangement that keeps equal elements in order is a permutation. */
  lemma {:induction false} SameLikesPermutes<T>(s: seq<T>, r: seq<T>, key: T -> int, cmp: (int, int) -> int)
    requires Consistent(cmp) && SameLikes(s, r, key, cmp)
    ensures multiset(r) == multiset(s)
  {
    forall x | x in multiset(r) || x in multiset(s)
      ensures multiset(r)[x] == multiset(s)[x]
    {
      LikeCounts(r, key, cmp, x);
      LikeCounts(s, key, cmp, x);
      assert Like(r, key, cmp, key(x)) == Like(s, key, cmp, key(x));
    }
    assert forall x :: x !in multiset(r) && x !in multiset(s) ==> multiset(r)[x] == multiset(s)[x];
  }

  // ---- two neighbouring parts ----

  /** No element of b compares equal to x. */
  ghost predicate Unlike<T>(x: T, b: seq<T>, key: T -> int, cmp: (int, int) -> int) {
    forall k :: 0 <= k < |b| ==> cmp(key(x), key(b[k])) < 0
  }

  /** Moving x in front of greater elements changes no group of equal ones. */
  lemma {:induction false} MoveKeepsLikes<T>(a: seq<T>, b: seq<T>, x: T, c: seq<T>, key: T -> int,
                                             cmp: (int, int) -> int)
    requires Consistent(cmp) && Unlike(x, b, key, cmp)
    ensures SameLikes(a + b + [x] + c, a + [x] + b + c, key, cmp)
  {
    forall d
      ensures Like(a + [x] + b + c, key, cmp, d) == Like(a + b + [x] + c, key, cmp, d)
    {
      LikeConcat(a + [x] + b, c, key, cmp, d);
      LikeConcat(a + [x], b, key, cmp, d);
      LikeConcat(a, [x], key, cmp, d);
      LikeConcat(a + b + [x], c, key, cmp, d);
      LikeConcat(a + b, [x], key, cmp, d);
      LikeConcat(a, b, key, cmp, d);
      OneGroup(x, b, key, cmp, d);
      Exchange(Like(a, key, cmp, d), Like([x], key, cmp, d), Like(b, key, cmp, d));
    }
  }

  lemma {:induction false} Exchange<T>(a: seq<T>, b: seq<T>, c: seq<T>)
    requires b == [] || c == []
    ensures a + b + c == a + c + b
  {}

  lemma {:induction false} OneGroup<T>(x: T, b: seq<T>, key: T -> int, cmp: (int, int) -> int, d: int)
    requires Consistent(cmp) && Unlike(x, b, key, cmp)
    ensures Like([x], key, cmp, d) == [] || Like(b, key, cmp, d) == []
  {
    LikeOne(x, key, cmp, d);
    if cmp(key(x), d) == 0 {
      forall k | 0 <= k < |b|
        ensures cmp(key(b[k]), d) != 0
      {
        EqualBoth(key(x), key(b[k]), d, cmp);
      }
      LikeNothing(b, key, cmp, d);
    }
  }

  lemma {:induction false} EqualBoth(x: int, y: int, d: int, cmp: (int, int) -> int)
    requires Consistent(cmp) && cmp(x, d) == 0 && cmp(x, y) < 0
    ensures cmp(y, d) != 0
  {
    assert cmp(d, x) == 0 by {
      assert !(cmp(x, d) < 0) && !(cmp(x, d) > 0);
      assert !(cmp(d, x) > 0) && !(cmp(d, x) < 0);
    }
    assert cmp(y, x) > 0;
    assert cmp(y, d) <= 0 && cmp(d, x) <= 0 ==> cmp(y, x) <= 0;
  }
}
