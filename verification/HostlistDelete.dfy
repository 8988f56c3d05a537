/** Deleting by name, and host sets: operations built from parse, find, pop, delete-nth and uniq. */
module HostlistDelete {
  import opened Options
  import opened Seqs
  import opened Hosts
  import opened Hostranges
  import opened Hostlists
  import opened HostlistOps
  import opened HostlistFind
  import HostlistParse
  import HostlistUniq
  import opened HostlistNames
  import opened Agreement

  /** The hosts left when the first one the search sees under this name is gone. */
  ghost function DeleteFirst(hs: seq<Host>, name: string): seq<Host> {
    var k := Search(hs, name);
    if k < 0 then hs else Without(hs, k)
  }

  /** Applies f with the last of the first n elements, then the one before it, and so on. */
  ghost function FoldBack<A, B>(f: (A, B) -> A, a: A, bs: seq<B>, n: nat): A
    requires n <= |bs|
  {
    if n == 0 then a else FoldBack(f, f(a, bs[n - 1]), bs, n - 1)
  }

  lemma {:induction false} FoldStep(hs: seq<Host>, names: seq<string>, n: nat)
    requires 0 < n <= |names|
    ensures DeleteEach(hs, names, n) == DeleteEach(DeleteFirst(hs, names[n - 1]), names, n - 1)
  {}

  /** Deletes the first n names, last one first. */
  ghost function DeleteEach(hs: seq<Host>, names: seq<string>, n: nat): seq<Host>
    requires n <= |names|
  {
    FoldBack(DeleteFirst, hs, names, n)
  }

  method DeleteHost(hl: Hostlist, hostname: string) returns (deleted: int)
    requires hl.Sound()
    modifies hl, hl.hr
    ensures hl.Sound() && (hl.hr == old(hl.hr) || fresh(hl.hr))
    ensures hl.Contents() == DeleteFirst(old(hl.Contents()), hostname)
    ensures deleted == old(hl.nhosts) - hl.nhosts
  {
    var n := Find(hl, hostname);
    if n >= 0 {
      DeleteNth(hl, n);
    }
    deleted := if n >= 0 then 1 else 0;
  }

  /** hostlist_delete: pops the parsed names one by one and deletes each; nothing happens on a malformed text. */
  method Delete(hl: Hostlist, hosts: string) returns (n: int)
    requires hl.Sound() && HostlistParse.Parse(hosts) != HostlistParse.Beyond
    modifies hl, hl.hr
    ensures hl.Sound()
    ensures n == old(hl.nhosts) - hl.nhosts
    ensures match HostlistParse.Parse(hosts)
            case Accepted(rs) =>
              hl.Contents() == DeleteEach(old(hl.Contents()), Names(Expand(rs)), |Names(Expand(rs))|)
            case _ => hl.Contents() == old(hl.Contents())
  {
    n := 0;
    var parsed := HostlistParse.Create(hosts);
    if parsed == None {
      return;
    }
    n := DeleteListed(hl, parsed.value);
  }

  /** Pops every name of tmp and deletes it from hl. */
  method DeleteListed(hl: Hostlist, tmp: Hostlist) returns (n: int)
    requires hl.Sound() && tmp.Sound() && hl != tmp && hl.hr != tmp.hr
    modifies hl, hl.hr, tmp, tmp.hr
    ensures hl.Sound() && n == old(hl.nhosts) - hl.nhosts
    ensures var names := Names(old(tmp.Contents()));
            hl.Contents() == DeleteEach(old(hl.Contents()), names, |names|)
  {
    n := 0;
    ghost var names, hs, size := Names(tmp.Contents()), hl.Contents(), hl.nhosts;
    assert names[..tmp.nhosts] == names;
    while tmp.nhosts > 0
      invariant StillListed(tmp, names) && tmp.hr == old(tmp.hr)
      invariant hl.Sound() && (hl.hr == old(hl.hr) || fresh(hl.hr))
      invariant DeleteEach(hl.Contents(), names, tmp.nhosts) == DeleteEach(hs, names, |names|)
      invariant n == size - hl.nhosts
      decreases tmp.nhosts
    {
      var d := DeleteLast(hl, tmp, names);
      n := n + d;
    }
  }

  /** The names still to be deleted. */
  ghost predicate StillListed(tmp: Hostlist, names: seq<string>)
    reads tmp, tmp.hr
  {
    tmp.Sound() && tmp.nhosts <= |names| && Names(tmp.Contents()) == names[..tmp.nhosts]
  }

  /** Pops the last name of tmp and deletes it from hl. */
  method DeleteOne(hl: Hostlist, tmp: Hostlist, ghost names: seq<string>) returns (deleted: int)
    requires hl.Sound() && hl != tmp && hl.hr != tmp.hr && StillListed(tmp, names) && tmp.nhosts > 0
    modifies hl, hl.hr, tmp`nranges, tmp`nhosts, tmp.hr
    ensures hl.Sound() && (hl.hr == old(hl.hr) || fresh(hl.hr))
    ensures StillListed(tmp, names) && tmp.nhosts == old(tmp.nhosts) - 1
    ensures hl.Contents() == DeleteFirst(old(hl.Contents()), names[tmp.nhosts])
    ensures deleted == old(hl.nhosts) - hl.nhosts
  {
    var name := TakeName(tmp, names);
    deleted := DeleteHost(hl, name);
  }

  /** One turn of the deletion: what is left to do brings the same result. */
  method DeleteLast(hl: Hostlist, tmp: Hostlist, ghost names: seq<string>) returns (deleted: int)
    requires hl.Sound() && hl != tmp && hl.hr != tmp.hr && StillListed(tmp, names) && tmp.nhosts > 0
    modifies hl, hl.hr, tmp`nranges, tmp`nhosts, tmp.hr
    ensures hl.Sound() && (hl.hr == old(hl.hr) || fresh(hl.hr))
    ensures StillListed(tmp, names) && tmp.nhosts == old(tmp.nhosts) - 1
    ensures DeleteEach(hl.Contents(), names, tmp.nhosts) == old(DeleteEach(hl.Contents(), names, tmp.nhosts))
    ensures deleted == old(hl.nhosts) - hl.nhosts
  {
    FoldStep(hl.Contents(), names, tmp.nhosts);
    deleted := DeleteOne(hl, tmp, names);
  }

  /** Pops the last name still in tmp. */
  method TakeName(tmp: Hostlist, ghost names: seq<string>) returns (name: string)
    requires StillListed(tmp, names) && 0 < tmp.nhosts
    modifies tmp`nranges, tmp`nhosts, tmp.hr
    ensures StillListed(tmp, names) && tmp.nhosts == old(tmp.nhosts) - 1 && name == names[tmp.nhosts]
  {
    ghost var hs, n := tmp.Contents(), tmp.nhosts;
    var host := Pop(tmp);
    name := host.value;
    assert Names(hs)[n - 1] == names[n - 1];
    assert Names(hs[..n - 1]) == names[..n - 1];
  }

  // ---- what deletion means ----

  lemma {:induction false} NamesWithout(hs: seq<Host>, k: nat)
    requires k < |hs|
    ensures Names(Without(hs, k)) == Without(Names(hs), k)
  {}

  lemma {:induction false} BagWithout(ns: seq<string>, k: nat)
    requires k < |ns|
    ensures multiset(Without(ns, k)) == multiset(ns) - multiset{ns[k]}
  {
    assert ns == ns[..k] + [ns[k]] + ns[k + 1..];
  }

  lemma {:induction false} DeleteFirstBag(hs: seq<Host>, name: string)
    requires Searchable(name)
    ensures multiset(Names(DeleteFirst(hs, name))) == multiset(Names(hs)) - multiset{name}
  {
    var k := Search(hs, name);
    FindsFirst(hs, name);
    IndexIsFirst(hs, name);
    if k >= 0 {
      NamesWithout(hs, k);
      BagWithout(Names(hs), k);
    } else {
      assert name !in Names(hs);
      assert name !in multiset(Names(hs));
    }
  }

  lemma {:induction false} MinusTwice<B>(a: multiset<B>, x: B, b: multiset<B>)
    ensures (a - multiset{x}) - b == a - (b + multiset{x})
  {}

  lemma {:induction false} TakeBag<B>(bs: seq<B>, n: nat)
    requires 0 < n <= |bs|
    ensures multiset(bs[..n]) == multiset(bs[..n - 1]) + multiset{bs[n - 1]}
  {
    assert bs[..n] == bs[..n - 1] + [bs[n - 1]];
  }

  /** When every step takes one element from a bag, the fold takes all of them. */
  lemma {:induction false} FoldTakes<A(!new), B>(f: (A, B) -> A, bag: A -> multiset<B>, a: A, bs: seq<B>, n: nat)
    requires n <= |bs| && forall x: A, k :: 0 <= k < n ==> bag(f(x, bs[k])) == bag(x) - multiset{bs[k]}
    ensures bag(FoldBack(f, a, bs, n)) == bag(a) - multiset(bs[..n])
  {
    if n > 0 {
      FoldTakes(f, bag, f(a, bs[n - 1]), bs, n - 1);
      TakeBag(bs, n);
      MinusTwice(bag(a), bs[n - 1], multiset(bs[..n - 1]));
    } else {
      assert bs[..n] == [];
    }
  }

  /** Each listed name takes one occurrence away, as long as there is one. */
  lemma {:induction false} DeleteEachBag(hs: seq<Host>, names: seq<string>, n: nat)
    requires n <= |names| && forall k :: 0 <= k < n ==> Searchable(names[k])
    ensures multiset(Names(DeleteEach(hs, names, n))) == multiset(Names(hs)) - multiset(names[..n])
  {
    var bag := (x: seq<Host>) => multiset(Names(x));
    forall x: seq<Host>, k | 0 <= k < n
      ensures bag(DeleteFirst(x, names[k])) == bag(x) - multiset{names[k]}
    {
      DeleteFirstBag(x, names[k]);
    }
    FoldTakes(DeleteFirst, bag, hs, names, n);
  }

  // ---- host sets ----

  /** hostset_create: parse, then uniq. */
  method HostsetCreate(s: string) returns (set_: Option<Hostlist>)
    requires match HostlistParse.Parse(s)
             case Accepted(rs) => AllSmall(rs) && AllCountable(rs, 0)
             case Rejected => true
             case Beyond => false
    ensures set_ == None <==> HostlistParse.Parse(s) == HostlistParse.Rejected
    ensures set_.Some? ==>
              var parsed := Expand(HostlistParse.Parse(s).ranges);
              && set_.value.Sound() && HostlistUniq.SameSet(set_.value.Contents(), parsed)
              && (Ascending(set_.value.Contents(), true) <==> AllAgree(HostlistParse.Parse(s).ranges))
              && (AllAgree(HostlistParse.Parse(s).ranges) ==>
                   (NoNameTwice(set_.value.Contents()) <==> !AnyConfusable(HostlistParse.Parse(s).ranges)))
  {
    set_ := HostlistParse.Create(s);
    if set_.Some? {
      HostlistUniq.Uniq(set_.value);
    }
  }
}
