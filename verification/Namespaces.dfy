/** Namespace declarations: shallow binding of prefixes, undone when elements end. */
module Namespaces {
  import opened Seqs

  class Prefix {
    const name: string
    var binding: Binding?

    constructor (name: string)
      ensures this.name == name && binding == null
    {
      this.name := name;
      binding := null;
    }
  }

  /** A declaration in force: the stored name, and what the prefix was bound to before. */
  class Binding {
    const prefix: Prefix
    const uri: string
    const prevPrefixBinding: Binding?
    ghost const declared: string

    constructor (prefix: Prefix, uri: string, prevPrefixBinding: Binding?, ghost declared: string)
      ensures this.prefix == prefix && this.uri == uri
      ensures this.prevPrefixBinding == prevPrefixBinding && this.declared == declared
    {
      this.prefix, this.uri, this.prevPrefixBinding, this.declared := prefix, uri, prevPrefixBinding, declared;
    }
  }

  class Tag {
    const rawName: string
    var bindings: seq<Binding>
    /** The declarations in force around the element. */
    ghost const base: seq<Binding>

    constructor (rawName: string, bindings: seq<Binding>, ghost base: seq<Binding>)
      ensures this.rawName == rawName && this.base == base && this.bindings == bindings
    {
      this.rawName, this.base := rawName, base;
      this.bindings := bindings;
    }
  }

  /** A namespace attribute of a tag. */
  datatype Decl = Decl(prefix: Prefix, uri: string)

  /** How names are stored: with the separator behind, when there is one. */
  datatype Config = Config(defaultPrefix: Prefix, separator: string)

  // ---- the environment of sections 6.1 and 6.2 of Namespaces in XML 1.0 ----

  /** One declaration; the empty name undeclares the default. */
  ghost function Declare(c: Config, env: map<Prefix, string>, p: Prefix, uri: string): map<Prefix, string> {
    if uri == "" && p == c.defaultPrefix then env - {p} else env[p := uri + c.separator]
  }

  ghost function DeclareAll(c: Config, env: map<Prefix, string>, decls: seq<Decl>, n: nat): map<Prefix, string>
    requires n <= |decls|
  {
    if n == 0 then env else Declare(c, DeclareAll(c, env, decls, n - 1), decls[n - 1].prefix, decls[n - 1].uri)
  }

  /** The environment after declarations in order, oldest first. */
  ghost function EnvAfter(c: Config, bs: seq<Binding>, n: nat): map<Prefix, string>
    requires n <= |bs|
  {
    if n == 0 then map[] else Declare(c, EnvAfter(c, bs, n - 1), bs[n - 1].prefix, bs[n - 1].declared)
  }

  /** What prefix p is bound to after the first n of them: the last one that declares it, unless that undeclares it. */
  ghost function Innermost(c: Config, bs: seq<Binding>, n: nat, p: Prefix): Binding?
    requires n <= |bs|
  {
    if n == 0 then null
    else if bs[n - 1].prefix != p then Innermost(c, bs, n - 1, p)
    else if bs[n - 1].declared == "" && p == c.defaultPrefix then null
    else bs[n - 1]
  }

  /** Every binding stores its name and remembers what was in force before it. */
  ghost predicate Chained(c: Config, bs: seq<Binding>) {
    forall k :: 0 <= k < |bs| ==>
      && bs[k].uri == bs[k].declared + c.separator
      && bs[k].prevPrefixBinding == Innermost(c, bs, k, bs[k].prefix)
  }

  lemma {:induction false} InnermostLocal(c: Config, a: seq<Binding>, b: seq<Binding>, n: nat, p: Prefix)
    requires n <= |a| && n <= |b| && a[..n] == b[..n]
    ensures Innermost(c, a, n, p) == Innermost(c, b, n, p)
  {
    if n > 0 {
      assert a[n - 1] == a[..n][n - 1] == b[..n][n - 1] == b[n - 1];
      assert a[..n - 1] == a[..n][..n - 1] == b[..n][..n - 1];
      InnermostLocal(c, a, b, n - 1, p);
    }
  }

  lemma {:induction false} EnvLocal(c: Config, a: seq<Binding>, b: seq<Binding>, n: nat)
    requires n <= |a| && n <= |b| && a[..n] == b[..n]
    ensures EnvAfter(c, a, n) == EnvAfter(c, b, n)
  {
    if n > 0 {
      assert a[n - 1] == a[..n][n - 1] == b[..n][n - 1] == b[n - 1];
      assert a[..n - 1] == a[..n][..n - 1] == b[..n][..n - 1];
      EnvLocal(c, a, b, n - 1);
    }
  }

  /** The innermost binding of a prefix carries its name in the environment. */
  lemma {:induction false} InnermostIsEnv(c: Config, bs: seq<Binding>, n: nat, p: Prefix)
    requires n <= |bs| && Chained(c, bs)
    ensures p in EnvAfter(c, bs, n) <==> Innermost(c, bs, n, p) != null
    ensures p in EnvAfter(c, bs, n) ==> EnvAfter(c, bs, n)[p] == Innermost(c, bs, n, p).uri
  {
    if n > 0 {
      InnermostIsEnv(c, bs, n - 1, p);
    }
  }

  lemma {:induction false} EnvSnoc(c: Config, bs: seq<Binding>, b: Binding)
    ensures EnvAfter(c, bs + [b], |bs| + 1) == Declare(c, EnvAfter(c, bs, |bs|), b.prefix, b.declared)
  {
    assert (bs + [b])[..|bs|] == bs[..|bs|];
    EnvLocal(c, bs + [b], bs, |bs|);
  }

  lemma {:induction false} InnermostFront(c: Config, bs: seq<Binding>, b: Binding, k: nat, p: Prefix)
    requires k <= |bs|
    ensures Innermost(c, bs + [b], k, p) == Innermost(c, bs, k, p)
  {
    assert (bs + [b])[..k] == bs[..k];
    InnermostLocal(c, bs + [b], bs, k, p);
  }

  lemma {:induction false} ChainedSnoc(c: Config, bs: seq<Binding>, b: Binding)
    requires Chained(c, bs) && b.uri == b.declared + c.separator
    requires b.prevPrefixBinding == Innermost(c, bs, |bs|, b.prefix)
    ensures Chained(c, bs + [b])
  {
    var all := bs + [b];
    forall k | 0 <= k < |all|
      ensures all[k].uri == all[k].declared + c.separator
      ensures all[k].prevPrefixBinding == Innermost(c, all, k, all[k].prefix)
    {
      InnermostFront(c, bs, b, k, all[k].prefix);
      assert k < |bs| ==> all[k] == bs[k];
    }
  }

  /** What one more declaration does to each prefix. */
  lemma {:induction false} InnermostSnoc(c: Config, bs: seq<Binding>, b: Binding, p: Prefix)
    ensures Innermost(c, bs + [b], |bs| + 1, p) ==
              if p != b.prefix then Innermost(c, bs, |bs|, p)
              else if b.declared == "" && p == c.defaultPrefix then null else b
  {
    InnermostFront(c, bs, b, |bs|, p);
  }

  lemma {:induction false} ChainedFront(c: Config, bs: seq<Binding>, b: Binding)
    requires Chained(c, bs + [b])
    ensures Chained(c, bs) && b.prevPrefixBinding == Innermost(c, bs, |bs|, b.prefix)
  {
    var all := bs + [b];
    assert all[|bs|] == b;
    InnermostFront(c, bs, b, |bs|, b.prefix);
    forall k | 0 <= k < |bs|
      ensures bs[k].uri == bs[k].declared + c.separator && bs[k].prevPrefixBinding == Innermost(c, bs, k, bs[k].prefix)
    {
      InnermostFront(c, bs, b, k, all[k].prefix);
      assert all[k] == bs[k];
    }
  }

  function Rev(bs: seq<Binding>): seq<Binding> {
    if bs == [] then [] else Rev(bs[1..]) + [bs[0]]
  }

  /** The environment inside open elements with these declarations, innermost element first. */
  ghost function InScope(c: Config, outside: map<Prefix, string>, scopes: seq<seq<Decl>>): map<Prefix, string> {
    if scopes == [] then outside else DeclareAll(c, InScope(c, outside, scopes[1..]), scopes[0], |scopes[0]|)
  }

  // ---- the parser's part ----

  /** Each tag holds its own declarations, on top of those around it. */
  ghost predicate Stacked(c: Config, tags: seq<Tag>, scopes: seq<seq<Decl>>, bs: seq<Binding>, inherited: seq<Binding>)
    reads tags
    decreases |tags|
  {
    if tags == [] then scopes == [] && bs == Rev(inherited)
    else
      && scopes != []
      && bs == tags[0].base + Rev(tags[0].bindings)
      && EnvAfter(c, bs, |bs|) == DeclareAll(c, EnvAfter(c, tags[0].base, |tags[0].base|), scopes[0], |scopes[0]|)
      && Stacked(c, tags[1..], scopes[1..], tags[0].base, inherited)
  }

  lemma {:induction false} StackedEnv(c: Config, tags: seq<Tag>, scopes: seq<seq<Decl>>, bs: seq<Binding>,
                                      inherited: seq<Binding>)
    requires Stacked(c, tags, scopes, bs, inherited)
    ensures EnvAfter(c, bs, |bs|) == InScope(c, EnvAfter(c, Rev(inherited), |Rev(inherited)|), scopes)
    decreases |tags|
  {
    if tags != [] {
      StackedEnv(c, tags[1..], scopes[1..], tags[0].base, inherited);
    }
  }

  lemma {:induction false} StackedPush(c: Config, tag: Tag, tags: seq<Tag>, decls: seq<Decl>, scopes: seq<seq<Decl>>,
                                       bs: seq<Binding>, inherited: seq<Binding>)
    requires Stacked(c, tags, scopes, tag.base, inherited) && bs == tag.base + Rev(tag.bindings)
    requires EnvAfter(c, bs, |bs|) == DeclareAll(c, EnvAfter(c, tag.base, |tag.base|), decls, |decls|)
    ensures Stacked(c, [tag] + tags, [decls] + scopes, bs, inherited)
  {
    assert ([tag] + tags)[1..] == tags && ([decls] + scopes)[1..] == scopes;
  }

  lemma {:induction false} RevCons(b: Binding, bs: seq<Binding>)
    ensures Rev([b] + bs) == Rev(bs) + [b]
  {
    assert ([b] + bs)[1..] == bs;
  }

  // ---- names of elements ----

  /** What is behind the first colon. */
  function LocalPart(s: string): string {
    if s == "" then "" else if s[0] == ':' then s[1..] else LocalPart(s[1..])
  }

  /** The name an element goes by: its namespace and local part, or as it stands when its prefix is not bound. */
  function Expanded(c: Config, env: map<Prefix, string>, prefix: Prefix, rawName: string): string {
    if prefix in env then env[prefix] + (if prefix == c.defaultPrefix then rawName else LocalPart(rawName)) else rawName
  }

  datatype Error = NONE | TAG_MISMATCH | ASYNC_ENTITY

  class Parser {
    const config: Config
    var tagStack: seq<Tag>
    var inheritedBindings: seq<Binding>
    ghost var prefixes: set<Prefix>
    /** The declarations of each open element, innermost element first. */
    ghost var scopes: seq<seq<Decl>>
    /** The declarations in force, oldest first. */
    ghost var order: seq<Binding>

    /** Every prefix points to its innermost declaration. */
    ghost predicate Bound()
      reads this, prefixes
    {
      && Chained(config, order)
      && (forall b :: b in order ==> b.prefix in prefixes)
      && (forall p :: p in prefixes ==> p.binding == Innermost(config, order, |order|, p))
    }

    /** The environment the prefixes themselves show. */
    ghost function Env(): map<Prefix, string>
      reads this, prefixes
    {
      map p | p in prefixes && p.binding != null :: p.binding.uri
    }

    lemma {:induction false} EnvIsOrder()
      requires Bound()
      ensures Env() == EnvAfter(config, order, |order|)
    {
      var env := EnvAfter(config, order, |order|);
      forall p | p in env
        ensures p in Env()
      {
        InnermostIsEnv(config, order, |order|, p);
        InnermostKnown(p, |order|);
      }
      forall p | p in Env()
        ensures p in env && env[p] == Env()[p]
      {
        InnermostIsEnv(config, order, |order|, p);
      }
      assert Env().Keys == env.Keys;
    }

    lemma {:induction false} InnermostKnown(p: Prefix, n: nat)
      requires Bound() && n <= |order|
      ensures Innermost(config, order, n, p) != null ==> p in prefixes
    {
      if n > 0 {
        assert order[n - 1] in order;
        InnermostKnown(p, n - 1);
      }
    }

    /** The environment of the declarations in force. */
    ghost function InForce(): map<Prefix, string>
      reads this
    {
      EnvAfter(config, order, |order|)
    }

    /** Points the prefix of a new declaration at it, or at nothing when it undeclares. */
    method Link(b: Binding, uri: string)
      requires Bound() && b.prefix in prefixes && b.declared == uri
      requires b.uri == b.declared + config.separator && b.prevPrefixBinding == b.prefix.binding
      modifies this`order, b.prefix
      ensures Bound() && order == old(order) + [b]
    {
      ChainedSnoc(config, order, b);
      forall p | p in prefixes
        ensures Innermost(config, order + [b], |order| + 1, p) ==
                  if p != b.prefix then p.binding else if b.declared == "" && p == config.defaultPrefix then null else b
      {
        InnermostSnoc(config, order, b, p);
      }
      if uri == "" && b.prefix == config.defaultPrefix {
        b.prefix.binding := null;
      } else {
        b.prefix.binding := b;
      }
      order := order + [b];
    }

    /** addBinding: declares a prefix and puts the binding at the head of a tag's list. */
    method AddBinding(prefix: Prefix, uri: string, bindings: seq<Binding>, ghost base: seq<Binding>)
      returns (bindings': seq<Binding>)
      requires Bound() && prefix in prefixes && order == base + Rev(bindings)
      modifies this`order, prefix
      ensures Bound() && InForce() == Declare(config, old(InForce()), prefix, uri)
      ensures order == base + Rev(bindings')
    {
      var b := new Binding(prefix, uri + config.separator, prefix.binding, uri);
      EnvSnoc(config, order, b);
      Link(b, uri);
      bindings' := [b] + bindings;
      RevCons(b, bindings);
      Assoc(base, Rev(bindings), [b]);
    }

    /** Gives the prefix of the latest declaration its earlier binding back. */
    method UndoLast(b: Binding, ghost before: seq<Binding>)
      requires Bound() && order == before + [b]
      modifies this`order, prefixes
      ensures Bound() && order == before
    {
      assert order[|before|] == b;
      ChainedFront(config, before, b);
      forall p | p in prefixes
        ensures p != b.prefix ==> Innermost(config, before, |before|, p) == p.binding
      {
        InnermostSnoc(config, before, b, p);
      }
      assert forall x :: x in before ==> x in order;
      b.prefix.binding := b.prevPrefixBinding;
      order := before;
    }

    /** The loop that undoes a tag's declarations, last one first. */
    method Unbind(bindings: seq<Binding>, ghost base: seq<Binding>)
      requires Bound() && order == base + Rev(bindings)
      modifies this`order, prefixes
      ensures Bound() && order == base
    {
      var bs := bindings;
      while bs != []
        invariant Bound() && order == base + Rev(bs)
        decreases |bs|
      {
        var b := bs[0];
        bs := bs[1..];
        Assoc(base, Rev(bs), [b]);
        UndoLast(b, base + Rev(bs));
      }
    }

    ghost predicate Valid()
      reads this, prefixes, tagStack
    {
      Bound() && Stacked(config, tagStack, scopes, order, inheritedBindings)
    }

    /** The environment outside every element. */
    ghost function Outside(): map<Prefix, string>
      reads this
    {
      EnvAfter(config, Rev(inheritedBindings), |Rev(inheritedBindings)|)
    }

    /** At every moment each prefix shows the innermost declaration in the open elements, and nothing else. */
    lemma {:induction false} ShowsInnermost()
      requires Valid()
      ensures Env() == InScope(config, Outside(), scopes)
    {
      EnvIsOrder();
      StackedEnv(config, tagStack, scopes, order, inheritedBindings);
    }

    constructor (config: Config, ghost known: set<Prefix>)
      requires forall p :: p in known ==> p.binding == null
      ensures Valid() && scopes == [] && tagStack == [] && this.config == config && prefixes == known
      ensures inheritedBindings == [] && order == []
    {
      this.config := config;
      tagStack, inheritedBindings, scopes, order, prefixes := [], [], [], [], known;
    }

    /** The declarations of the implicit context, in force outside every element. */
    method SetContext(decls: seq<Decl>)
      requires Valid() && tagStack == [] && inheritedBindings == []
      requires forall d :: d in decls ==> d.prefix in prefixes
      modifies this`order, this`inheritedBindings, prefixes
      ensures Valid() && InForce() == DeclareAll(config, old(InForce()), decls, |decls|)
    {
      inheritedBindings := StoreAtts(decls, []);
      assert [] + Rev(inheritedBindings) == Rev(inheritedBindings);
    }

    /** The first n of decls have been declared, on top of base and an environment env. */
    ghost predicate Declared(decls: seq<Decl>, n: nat, env: map<Prefix, string>, base: seq<Binding>,
                             bindings: seq<Binding>)
      reads this, prefixes
    {
      && n <= |decls| && Bound() && order == base + Rev(bindings)
      && InForce() == DeclareAll(config, env, decls, n)
    }

    method AddNext(decls: seq<Decl>, n: nat, bindings: seq<Binding>, ghost env: map<Prefix, string>,
                   ghost base: seq<Binding>)
      returns (bindings': seq<Binding>)
      requires n < |decls| && Declared(decls, n, env, base, bindings) && decls[n].prefix in prefixes
      modifies this`order, prefixes
      ensures Declared(decls, n + 1, env, base, bindings')
    {
      bindings' := AddBinding(decls[n].prefix, decls[n].uri, bindings, base);
    }

    /** Declares the namespace attributes of a tag in order. */
    method StoreAtts(decls: seq<Decl>, ghost base: seq<Binding>) returns (bindings: seq<Binding>)
      requires Bound() && order == base
      requires forall d :: d in decls ==> d.prefix in prefixes
      modifies this`order, prefixes
      ensures Declared(decls, |decls|, old(InForce()), base, bindings)
    {
      ghost var env := InForce();
      bindings := [];
      assert base + Rev([]) == base;
      var i := 0;
      while i < |decls|
        invariant i <= |decls| && Declared(decls, i, env, base, bindings)
      {
        bindings := AddNext(decls, i, bindings, env, base);
        i := i + 1;
      }
    }

    /** Expands the name of an element; the default prefix stands for none. */
    method ExpandName(prefix: Prefix, rawName: string) returns (name: string)
      requires Bound() && prefix in prefixes
      ensures name == Expanded(config, InForce(), prefix, rawName)
    {
      InnermostIsEnv(config, order, |order|, prefix);
      name := rawName;
      if prefix.binding != null {
        var localPart := rawName;
        if prefix != config.defaultPrefix {
          localPart := Behind(rawName);
        }
        name := prefix.binding.uri + localPart;
      }
    }

    /** The loop that goes past the first colon. */
    static method Behind(rawName: string) returns (localPart: string)
      ensures localPart == LocalPart(rawName)
    {
      localPart := rawName;
      while localPart != ""
        invariant LocalPart(localPart) == LocalPart(rawName)
        decreases |localPart|
      {
        var c := localPart[0];
        localPart := localPart[1..];
        if c == ':' {
          return;
        }
      }
    }

    /**
     * Opens an element: its declarations come into force on top of those around it, and its own name is expanded under
     * them.
     */
    method StartTag(rawName: string, prefix: Prefix, decls: seq<Decl>) returns (name: string)
      requires Valid() && prefix in prefixes && forall d :: d in decls ==> d.prefix in prefixes
      modifies this`tagStack, this`order, this`scopes, prefixes
      ensures Valid() && scopes == [decls] + old(scopes)
      ensures |tagStack| > 0 && tagStack[1..] == old(tagStack) && tagStack[0].rawName == rawName
      ensures name == Expanded(config, DeclareAll(config, old(InForce()), decls, |decls|), prefix, rawName)
    {
      ghost var base := order;
      var bindings := StoreAtts(decls, base);
      name := ExpandName(prefix, rawName);
      assert Stacked(config, tagStack, scopes, base, inheritedBindings);
      var tag := new Tag(rawName, bindings, base);
      assert Stacked(config, tagStack, scopes, base, inheritedBindings);
      Push(tag, decls);
    }

    /** Puts a tag whose declarations are in force on the stack. */
    method Push(tag: Tag, ghost decls: seq<Decl>)
      requires Bound() && Stacked(config, tagStack, scopes, tag.base, inheritedBindings)
      requires order == tag.base + Rev(tag.bindings)
      requires InForce() == DeclareAll(config, EnvAfter(config, tag.base, |tag.base|), decls, |decls|)
      modifies this`tagStack, this`scopes
      ensures Valid() && scopes == [decls] + old(scopes)
      ensures |tagStack| > 0 && tagStack[1..] == old(tagStack) && tagStack[0] == tag
    {
      StackedPush(config, tag, tagStack, decls, scopes, order, inheritedBindings);
      tagStack := [tag] + tagStack;
      scopes := [decls] + scopes;
    }

    /** The first half of a tag that is start and end in one: every prefix shows what the tag declares. */
    method OpenEmpty(rawName: string, prefix: Prefix, decls: seq<Decl>) returns (name: string, bindings: seq<Binding>)
      requires Bound() && prefix in prefixes && forall d :: d in decls ==> d.prefix in prefixes
      modifies this`order, prefixes
      ensures Declared(decls, |decls|, old(InForce()), old(order), bindings)
      ensures Env() == DeclareAll(config, old(InForce()), decls, |decls|)
      ensures name == Expanded(config, Env(), prefix, rawName)
    {
      bindings := StoreAtts(decls, order);
      name := ExpandName(prefix, rawName);
      EnvIsOrder();
    }

    /** The second half: afterwards all is as it was. */
    method CloseEmpty(bindings: seq<Binding>, ghost base: seq<Binding>)
      requires Bound() && order == base + Rev(bindings)
      modifies this`order, prefixes
      ensures Bound() && order == base && Env() == EnvAfter(config, base, |base|)
    {
      Unbind(bindings, base);
      EnvIsOrder();
    }

    /** Both halves: the name is expanded under the tag's own declarations, and they do not outlast it. */
    method EmptyTag(rawName: string, prefix: Prefix, decls: seq<Decl>) returns (name: string)
      requires Valid() && prefix in prefixes && forall d :: d in decls ==> d.prefix in prefixes
      modifies this`order, prefixes
      ensures Valid() && order == old(order) && Env() == old(Env())
      ensures name == Expanded(config, DeclareAll(config, old(Env()), decls, |decls|), prefix, rawName)
    {
      EnvIsOrder();
      ghost var base := order;
      var bindings;
      name, bindings := OpenEmpty(rawName, prefix, decls);
      CloseEmpty(bindings, base);
    }

    /** Undoes the declarations of a tag that has been taken off the stack. */
    method LeaveScope(tag: Tag)
      requires Bound() && scopes != [] && order == tag.base + Rev(tag.bindings)
      requires Stacked(config, tagStack, scopes[1..], tag.base, inheritedBindings)
      modifies this`order, this`scopes, prefixes
      ensures Valid() && scopes == old(scopes)[1..]
    {
      Unbind(tag.bindings, tag.base);
      scopes := scopes[1..];
    }

    /** Closing an element restores the declarations around it. */
    method EndTag(rawName: string) returns (e: Error)
      requires Valid()
      modifies this`tagStack, this`order, this`scopes, prefixes
      ensures e == if old(tagStack) == [] then ASYNC_ENTITY
                   else if old(tagStack)[0].rawName != rawName then TAG_MISMATCH else NONE
      ensures e == NONE ==> Valid() && tagStack == old(tagStack)[1..] && scopes == old(scopes)[1..]
    {
      if tagStack == [] {
        return ASYNC_ENTITY;
      }
      var tag := tagStack[0];
      tagStack := tagStack[1..];
      if tag.rawName != rawName {
        return TAG_MISMATCH;
      }
      LeaveScope(tag);
      e := NONE;
    }
  }
}
