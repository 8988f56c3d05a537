/** What declarations and names come to, said of single prefixes: sections 6.1 and 6.2 of Namespaces in XML 1.0. */
module NamespaceLaws {
  import opened Namespaces

  /** In env, p stands for the name uri, or for nothing when that is empty and p is the default. */
  ghost predicate StandsFor(c: Config, env: map<Prefix, string>, p: Prefix, uri: string) {
    if uri == "" && p == c.defaultPrefix then p !in env else p in env && env[p] == uri + c.separator
  }

  /** The last of the declarations of p is number k. */
  ghost predicate LastFor(decls: seq<Decl>, p: Prefix, k: int) {
    0 <= k < |decls| && decls[k].prefix == p && forall j :: k < j < |decls| ==> decls[j].prefix != p
  }

  lemma {:induction false} DeclaredUpTo(c: Config, env: map<Prefix, string>, decls: seq<Decl>, p: Prefix, k: int,
                                        n: nat)
    requires LastFor(decls, p, k) && k < n <= |decls|
    ensures StandsFor(c, DeclareAll(c, env, decls, n), p, decls[k].uri)
    decreases n
  {
    if k < n - 1 {
      DeclaredUpTo(c, env, decls, p, k, n - 1);
    }
  }

  /** In an element a prefix stands for what the last declaration of it there says, whatever the earlier ones say. */
  lemma {:induction false} LastDeclares(c: Config, outside: map<Prefix, string>, scopes: seq<seq<Decl>>, p: Prefix,
                                        k: int)
    requires scopes != [] && LastFor(scopes[0], p, k)
    ensures StandsFor(c, InScope(c, outside, scopes), p, scopes[0][k].uri)
  {
    DeclaredUpTo(c, InScope(c, outside, scopes[1..]), scopes[0], p, k, |scopes[0]|);
  }

  lemma {:induction false} UntouchedUpTo(c: Config, env: map<Prefix, string>, decls: seq<Decl>, p: Prefix, n: nat)
    requires n <= |decls| && forall d :: d in decls ==> d.prefix != p
    ensures p in DeclareAll(c, env, decls, n) <==> p in env
    ensures p in env ==> DeclareAll(c, env, decls, n)[p] == env[p]
  {
    if n > 0 {
      UntouchedUpTo(c, env, decls, p, n - 1);
    }
  }

  /** A prefix that an element does not declare stands for the same in it as around it. */
  lemma {:induction false} Inherits(c: Config, outside: map<Prefix, string>, scopes: seq<seq<Decl>>, p: Prefix)
    requires scopes != [] && forall d :: d in scopes[0] ==> d.prefix != p
    ensures p in InScope(c, outside, scopes) <==> p in InScope(c, outside, scopes[1..])
    ensures p in InScope(c, outside, scopes) ==> InScope(c, outside, scopes)[p] == InScope(c, outside, scopes[1..])[p]
  {
    UntouchedUpTo(c, InScope(c, outside, scopes[1..]), scopes[0], p, |scopes[0]|);
  }

  lemma {:induction false} LocalIs(text: string, local: string)
    requires ':' !in text
    ensures LocalPart(text + ":" + local) == local
  {
    if text == "" {
      assert ("" + ":" + local)[1..] == local;
    } else {
      LocalIs(text[1..], local);
      assert (text + ":" + local)[1..] == text[1..] + ":" + local;
    }
  }

  /** A prefixed name becomes the declared name, the separator and what is behind the first colon. */
  lemma {:induction false} PrefixedName(c: Config, env: map<Prefix, string>, decls: seq<Decl>, p: Prefix, k: int,
                                        text: string, local: string)
    requires LastFor(decls, p, k) && p != c.defaultPrefix && ':' !in text
    ensures Expanded(c, DeclareAll(c, env, decls, |decls|), p, text + ":" + local)
         == decls[k].uri + c.separator + local
  {
    DeclaredUpTo(c, env, decls, p, k, |decls|);
    LocalIs(text, local);
  }

  /** A name without a prefix becomes the declared default, the separator and the whole name, or stays as it is. */
  lemma {:induction false} UnprefixedName(c: Config, env: map<Prefix, string>, decls: seq<Decl>, k: int, name: string)
    requires LastFor(decls, c.defaultPrefix, k)
    ensures Expanded(c, DeclareAll(c, env, decls, |decls|), c.defaultPrefix, name)
         == if decls[k].uri == "" then name else decls[k].uri + c.separator + name
  {
    DeclaredUpTo(c, env, decls, c.defaultPrefix, k, |decls|);
  }
}
