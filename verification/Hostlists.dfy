/** The host list: an array of range records, a range count and a host count. */
module Hostlists {
  import opened Hosts

  const CHUNK: nat := 16

  /** What an unused slot holds (the source keeps a null pointer there). */
  const UNUSED: Range := Range("", 0, 0, 0, true)

  /** Room is being made for r at position n: the old ranges from n up to i - 2 have moved up by one slot. */
  ghost predicate Making(a: seq<Range>, rs: seq<Range>, r: Range, n: nat, i: nat) {
    && n < i <= |rs| + 1 <= |a|
    && a[..i] == rs[..n] + [r] + rs[n..i - 1]
    && (i < |rs| ==> a[i..|rs|] == rs[i..])
  }

  lemma {:induction false} MakingStarts(a: seq<Range>, rs: seq<Range>, r: Range, n: nat)
    requires n <= |rs| < |a| && a[..n] == rs[..n] && a[n] == r && (n + 1 < |rs| ==> a[n + 1..|rs|] == rs[n + 1..])
    ensures Making(a, rs, r, n, n + 1)
  {
    assert a[..n + 1] == a[..n] + [a[n]];
  }

  lemma {:induction false} MakingOn(a: seq<Range>, rs: seq<Range>, r: Range, n: nat, i: nat)
    requires i <= |rs| && Making(a, rs, r, n, i)
    ensures Making(a[i := rs[i - 1]], rs, r, n, i + 1)
    ensures i < |rs| ==> a[i] == rs[i]
  {
    var a' := a[i := rs[i - 1]];
    assert a'[..i + 1] == a[..i] + [rs[i - 1]];
    assert rs[n..i] == rs[n..i - 1] + [rs[i - 1]];
    if i < |rs| {
      assert a[i] == a[i..|rs|][0];
      assert i + 1 < |rs| ==> a'[i + 1..|rs|] == a[i..|rs|][1..] == rs[i..][1..];
    }
  }

  class Hostlist {
    var hr: array<Range>
    var nranges: nat
    var nhosts: int

    ghost predicate Valid()
      reads this
    {
      nranges <= hr.Length && 0 < hr.Length
    }

    /** The ranges in use. */
    ghost function Ranges(): (rs: seq<Range>)
      reads this, hr
      requires Valid()
      ensures |rs| == nranges
    {
      hr[..nranges]
    }

    /** Every record is well formed and the host count is right. */
    ghost predicate Sound()
      reads this, hr
    {
      Valid() && AllOk(Ranges()) && nhosts == |Expand(Ranges())|
    }

    /** The plain sequence of hosts the list stands for. */
    ghost function Contents(): seq<Host>
      reads this, hr
      requires Valid()
    {
      Expand(Ranges())
    }

    constructor ()
      ensures Valid() && fresh(hr) && Ranges() == [] && nhosts == 0
    {
      hr := new Range[CHUNK](_ => UNUSED);
      nranges, nhosts := 0, 0;
    }

    /** Overwrites the record of range i. */
    method Store(i: nat, r: Range)
      requires Valid() && i < nranges
      modifies hr
      ensures Ranges() == old(Ranges())[i := r]
    {
      hr[i] := r;
    }

    /** Overwrites the records of ranges j - 1 and j. */
    method StoreTwo(j: nat, a: Range, b: Range)
      requires Valid() && 0 < j < nranges
      modifies hr
      ensures Ranges() == old(Ranges())[j - 1 := a][j := b]
    {
      hr[j - 1], hr[j] := a, b;
    }

    /** Makes room for another chunk of ranges. */
    method Grow()
      requires Valid()
      modifies this`hr
      ensures Valid() && fresh(hr) && hr.Length == old(hr.Length) + CHUNK
      ensures Ranges() == old(Ranges())
    {
      var bigger := new Range[hr.Length + CHUNK](_ => UNUSED);
      for i := 0 to hr.Length
        modifies bigger
        invariant forall k :: 0 <= k < i ==> bigger[k] == hr[k]
      {
        bigger[i] := hr[i];
      }
      hr := bigger;
    }

    /** Appends a range where there is room. */
    method Add(r: Range)
      requires Valid() && nranges < hr.Length
      modifies this`nranges, hr
      ensures Valid() && Ranges() == old(Ranges()) + [r]
    {
      hr[nranges] := r;
      nranges := nranges + 1;
    }

    /** One turn of making room: the record of slot i is taken out and the one carried along put in. */
    method Exchange(i: nat, tmp: Range, ghost rs: seq<Range>, ghost r: Range, ghost n: nat) returns (last: Range)
      requires i <= |rs| && Making(hr[..], rs, r, n, i) && tmp == rs[i - 1]
      modifies hr
      ensures Making(hr[..], rs, r, n, i + 1) && (i < |rs| ==> last == rs[i])
    {
      ghost var a := hr[..];
      MakingOn(a, rs, r, n, i);
      last := hr[i];
      hr[i] := tmp;
      assert hr[..] == a[i := tmp];
    }

    /** Puts range r at position n, moving the later ones up by one slot. */
    method Place(r: Range, n: nat)
      requires Valid() && n <= nranges < hr.Length
      modifies this`nranges, hr
      ensures Valid() && Ranges() == old(Ranges())[..n] + [r] + old(Ranges())[n..]
    {
      ghost var rs := Ranges();
      var tmp := hr[n];
      hr[n] := r;
      var i := n + 1;
      MakingStarts(hr[..], rs, r, n);
      while i < nranges + 1
        modifies hr
        invariant i <= nranges + 1 && Making(hr[..], rs, r, n, i) && (i <= nranges ==> tmp == rs[i - 1])
      {
        tmp := Exchange(i, tmp, rs, r, n);
        i := i + 1;
      }
      nranges := nranges + 1;
    }

    /** Puts range r at position n, growing the array when it is full. */
    method InsertRange(r: Range, n: nat)
      requires Valid() && n <= nranges
      modifies this`hr, this`nranges, hr
      ensures Valid() && (hr == old(hr) || fresh(hr))
      ensures Ranges() == old(Ranges())[..n] + [r] + old(Ranges())[n..]
    {
      if hr.Length == nranges {
        Grow();
      }
      Place(r, n);
    }

    /** Removes the range at position n, moving the later ranges down. */
    method DeleteRange(n: nat)
      requires Valid() && n < nranges
      modifies this`nranges, hr
      ensures Valid() && Ranges() == old(Ranges())[..n] + old(Ranges())[n + 1..]
    {
      ghost var rs := Ranges();
      var i := n;
      while i < nranges - 1
        modifies hr
        invariant n <= i < nranges
        invariant forall k :: 0 <= k < n ==> hr[k] == rs[k]
        invariant forall k :: n <= k < i ==> hr[k] == rs[k + 1]
        invariant forall k :: i <= k < nranges ==> hr[k] == rs[k]
      {
        hr[i] := hr[i + 1];
        i := i + 1;
      }
      nranges := nranges - 1;
      hr[nranges] := UNUSED;
      assert Ranges() == rs[..n] + rs[n + 1..];
    }
  }
}
