/** Short declarations, spelled out: which tokens make one, by the productions of section 3.2 of XML 1.0. */
module ContentLaws {
  import opened ContentModel
  import opened ContentParser

  lemma {:induction false} RunMore(ts: seq<Token>, t: Token, ts': seq<Token>)
    requires ts' == ts + [t]
    ensures Run(Start, ts') == Step(Run(Start, ts), t)
  {
    assert ts'[..|ts|] == ts;
  }

  /** A declaration is accepted when its last token but one completes a model. */
  lemma {:induction false} LastTwo(ts: seq<Token>, c: Token, whole: seq<Token>)
    requires whole == ts + [c, DeclClose]
    ensures Run(Start, ts + [c]) == Step(Run(Start, ts), c)
    ensures GrammaticalDeclaration(whole) <==> Run(Start, ts + [c]).Complete?
  {
    RunMore(ts, c, ts + [c]);
    RunMore(ts + [c], DeclClose, whole);
    AcceptedDeclaration(whole);
  }

  /** Without parentheses there are EMPTY and ANY. */
  lemma {:induction false} BareDeclaration(t: Token)
    ensures GrammaticalDeclaration([t, DeclClose]) <==> t == Name("EMPTY") || t == Name("ANY")
  {
    LastTwo([], t, [t, DeclClose]);
    assert [] + [t] == [t];
  }

  /** What stands behind the opening parenthesis and one token. */
  lemma {:induction false} AfterFirst(t: Token) returns (st: State)
    ensures st == Run(Start, [OpenParen, t])
    ensures (st.Item? || st.After?) ==> |st.frames| > 0
    ensures t == PoundName("PCDATA") <==> st.Pcdata?
    ensures t == Space <==> st.Opened?
    ensures st.After? <==> t.Name? || t.PrefixedName? || t.NameQuestion? || t.NameAsterisk? || t.NamePlus?
    ensures st.After? ==> st.frames == [Frame('\0', [Leaf(t)])]
    ensures t == OpenParen <==> st.Item?
    ensures st.Pcdata? || st.Opened? || st.After? || st.Item? || st.Failed?
  {
    RunOne(Start, OpenParen);
    RunMore([OpenParen], t, [OpenParen, t]);
    st := Run(Start, [OpenParen, t]);
    assert [NEW_FRAME][..0] == [];
    assert [] + [Leaf(t)] == [Leaf(t)];
  }

  /** Which token completes a model behind one that does not. */
  lemma {:induction false} Completes(st: State, c: Token)
    requires (st.Item? || st.After?) ==> |st.frames| > 0
    ensures st.After? && |st.frames| == 1 ==>
              (Step(st, c).Complete? <==>
                 c == CloseParen || c == CloseParenQuestion || c == CloseParenAsterisk || c == CloseParenPlus)
    ensures st.Pcdata? ==> (Step(st, c).Complete? <==> c == CloseParen || c == CloseParenAsterisk)
    ensures st.MixedAfter? ==> (Step(st, c).Complete? <==> c == CloseParenAsterisk)
    ensures st.Item? || st.Opened? || st.MixedName? || st.Failed? ==> !Step(st, c).Complete?
    ensures st.Complete? ==> (Step(st, c).Complete? <==> c == Space)
  {}

  /** One member in parentheses: a name, prefixed or not, with or without a mark, and any end of a group. */
  lemma {:induction false} OneMember(t: Token, c: Token)
    requires t != PoundName("PCDATA")
    ensures GrammaticalDeclaration([OpenParen, t, c, DeclClose]) <==>
              && (t.Name? || t.PrefixedName? || t.NameQuestion? || t.NameAsterisk? || t.NamePlus?)
              && (c == CloseParen || c == CloseParenQuestion || c == CloseParenAsterisk || c == CloseParenPlus)
  {
    var st := AfterFirst(t);
    LastTwo([OpenParen, t], c, [OpenParen, t, c, DeclClose]);
    Completes(st, c);
  }

  /** Character data alone may carry the asterisk, and no other mark. */
  lemma {:induction false} DataAlone(c: Token)
    ensures GrammaticalDeclaration([OpenParen, PoundName("PCDATA"), c, DeclClose]) <==>
              c == CloseParen || c == CloseParenAsterisk
  {
    var st := AfterFirst(PoundName("PCDATA"));
    LastTwo([OpenParen, PoundName("PCDATA")], c, [OpenParen, PoundName("PCDATA"), c, DeclClose]);
    Completes(st, c);
  }

  /** What stands behind a first member and a connector or an end. */
  lemma {:induction false} AfterSecond(st: State, sep: Token) returns (st': State)
    requires st.After? && |st.frames| == 1 && st.frames[0].conn == '\0'
    ensures st' == Step(st, sep)
    ensures (st'.Item? || st'.After?) ==> |st'.frames| > 0
    ensures sep == Space <==> st'.After?
    ensures sep == Comma || sep == Or <==> st'.Item?
    ensures st'.Item? ==> st'.frames == [Frame(if sep == Or then '|' else ',', st.frames[0].items)]
    ensures st'.Item? || st'.After? || st'.Complete? || st'.Failed?
  {
    st' := Step(st, sep);
    assert st.frames[..0] == [];
  }

  /** What stands behind a second member. */
  lemma {:induction false} AfterThird(st: State, u: Token) returns (st': State)
    requires (st.Item? || st.After?) ==> |st.frames| == 1
    requires st.Item? || st.Complete? || st.Failed?
    ensures st' == Step(st, u)
    ensures (st'.Item? || st'.After?) ==> |st'.frames| > 0
    ensures st'.After? ==> |st'.frames| == 1 && st.Item? && st'.frames[0].conn == st.frames[0].conn
    ensures st.Item? ==>
              (st'.After? <==> u.Name? || u.PrefixedName? || u.NameQuestion? || u.NameAsterisk? || u.NamePlus?)
    ensures u != Space && st'.Complete? ==> false
    ensures st'.Accepted? ==> u == DeclClose
    ensures st'.Pcdata? || st'.Opened? || st'.MixedAfter? || st'.MixedName? || st'.Start? ==> false
  {
    st' := Step(st, u);
    if st.Item? {
      assert st.frames[..0] == [];
    }
  }

  /** What stands behind character data, a connector and a name. */
  lemma {:induction false} AfterData(sep: Token, t: Token) returns (st: State)
    requires sep != Space && t != Space
    ensures st == Run(Start, [OpenParen, PoundName("PCDATA"), sep, t])
    ensures st.MixedAfter? <==> sep == Or && (t.Name? || t.PrefixedName?)
    ensures st.MixedAfter? || st.Failed? || st.Accepted?
  {
    var first := AfterFirst(PoundName("PCDATA"));
    RunMore([OpenParen, PoundName("PCDATA")], sep, [OpenParen, PoundName("PCDATA"), sep]);
    RunMore([OpenParen, PoundName("PCDATA"), sep], t, [OpenParen, PoundName("PCDATA"), sep, t]);
    st := Run(Start, [OpenParen, PoundName("PCDATA"), sep, t]);
  }

  /** Character data with an element: a bar between them, an unmarked name, and the asterisk. */
  lemma {:induction false} DataAndElement(sep: Token, t: Token, c: Token)
    requires sep != Space && t != Space && c != Space
    ensures GrammaticalDeclaration([OpenParen, PoundName("PCDATA"), sep, t, c, DeclClose]) <==>
              sep == Or && (t.Name? || t.PrefixedName?) && c == CloseParenAsterisk
  {
    var st := AfterData(sep, t);
    LastTwo([OpenParen, PoundName("PCDATA"), sep, t], c, [OpenParen, PoundName("PCDATA"), sep, t, c, DeclClose]);
    Completes(st, c);
  }

  /** No text makes a declaration of tokens that have failed. */
  lemma {:induction false} StaysFailed(front: seq<Token>, ts: seq<Token>)
    requires Run(Start, front) == Failed
    ensures !GrammaticalDeclaration(front + ts)
  {
    RunConcat(Start, front, ts);
    Settled(Failed, ts);
    AcceptedDeclaration(front + ts);
  }

  /** What stands behind two members. */
  lemma {:induction false} AfterTwo(t: Token, sep: Token, u: Token) returns (st: State)
    requires t.Name? || t.PrefixedName? || t.NameQuestion? || t.NameAsterisk? || t.NamePlus?
    requires sep != Space && u != Space
    ensures st == Run(Start, [OpenParen, t, sep, u])
    ensures (st.Item? || st.After?) ==> |st.frames| > 0
    ensures st.After? <==>
              && (sep == Comma || sep == Or)
              && (u.Name? || u.PrefixedName? || u.NameQuestion? || u.NameAsterisk? || u.NamePlus?)
    ensures st.After? ==> |st.frames| == 1 && st.frames[0].conn == (if sep == Or then '|' else ',')
    ensures st.After? || st.Item? || st.Accepted? || st.Failed?
  {
    var first := AfterFirst(t);
    var second := AfterSecond(first, sep);
    RunMore([OpenParen, t], sep, [OpenParen, t, sep]);
    st := AfterThird(second, u);
    RunMore([OpenParen, t, sep], u, [OpenParen, t, sep, u]);
  }

  /** Two members: a comma or a bar between them. */
  lemma {:induction false} TwoMembers(t: Token, sep: Token, u: Token, c: Token)
    requires t.Name? || t.PrefixedName? || t.NameQuestion? || t.NameAsterisk? || t.NamePlus?
    requires sep != Space && u != Space && c != Space
    ensures GrammaticalDeclaration([OpenParen, t, sep, u, c, DeclClose]) <==>
              && (sep == Comma || sep == Or)
              && (u.Name? || u.PrefixedName? || u.NameQuestion? || u.NameAsterisk? || u.NamePlus?)
              && (c == CloseParen || c == CloseParenQuestion || c == CloseParenAsterisk || c == CloseParenPlus)
  {
    var st := AfterTwo(t, sep, u);
    LastTwo([OpenParen, t, sep, u], c, [OpenParen, t, sep, u, c, DeclClose]);
    Completes(st, c);
  }

  /** Commas and bars do not mix in one group, whatever follows. */
  lemma {:induction false} NoMixedConnectors(t: Token, sep: Token, u: Token, sep': Token, ts: seq<Token>)
    requires t.Name? || t.PrefixedName? || t.NameQuestion? || t.NameAsterisk? || t.NamePlus?
    requires u.Name? || u.PrefixedName? || u.NameQuestion? || u.NameAsterisk? || u.NamePlus?
    requires (sep == Comma && sep' == Or) || (sep == Or && sep' == Comma)
    ensures !GrammaticalDeclaration([OpenParen, t, sep, u, sep'] + ts)
  {
    var front := [OpenParen, t, sep, u, sep'];
    var st := AfterTwo(t, sep, u);
    RunMore([OpenParen, t, sep, u], sep', front);
    StaysFailed(front, ts);
  }

  /** White space in front of any token makes no difference. */
  lemma {:induction false} SpaceAnywhere(a: seq<Token>, b: seq<Token>)
    requires b != []
    ensures GrammaticalDeclaration(a + [Space] + b) <==> GrammaticalDeclaration(a + b)
  {
    var st := Run(Start, a);
    RunMore(a, Space, a + [Space]);
    RunConcat(Start, a + [Space], b);
    RunConcat(Start, a, b);
    if st.Accepted? {
      Settled(st, b);
      Settled(Failed, b);
    }
    AcceptedDeclaration(a + [Space] + b);
    AcceptedDeclaration(a + b);
  }
}
