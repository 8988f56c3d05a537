/**
 * Content models of element type declarations: the grammar of sections 3.2, 3.2.1 and 3.2.2 of XML 1.0, and a reader
 * for it.
 */
module ContentModel {
  import opened Seqs

  /** The prolog tokens that matter after the name in an element type declaration. */
  datatype Token =
    | Space
    | Name(text: string)
    | PrefixedName(text: string)
    | NameQuestion(text: string)
    | NameAsterisk(text: string)
    | NamePlus(text: string)
    | PoundName(text: string)
    | OpenParen
    | CloseParen
    | CloseParenQuestion
    | CloseParenAsterisk
    | CloseParenPlus
    | Comma
    | Or
    | DeclClose
    | OtherToken

  /** A name with its repetition mark. */
  predicate IsLeaf(t: Token) {
    t.Name? || t.PrefixedName? || t.NameQuestion? || t.NameAsterisk? || t.NamePlus?
  }

  /** The end of a group with its repetition mark. */
  predicate IsClose(t: Token) {
    t.CloseParen? || t.CloseParenQuestion? || t.CloseParenAsterisk? || t.CloseParenPlus?
  }

  // ---- the grammar ----

  /** cp, choice and seq of section 3.2.1. */
  datatype Particle = Leaf(name: Token) | Group(sep: Token, items: seq<Particle>, close: Token)

  /** contentspec of section 3.2. */
  datatype Model = Empty | Any | Mixed(names: seq<Token>, close: Token) | Children(group: Particle)

  /** A choice has at least two alternatives; a sequence at least one member. */
  ghost predicate Grammatical(p: Particle) {
    match p
    case Leaf(name) => IsLeaf(name)
    case Group(sep, items, close) =>
      && IsClose(close)
      && ((sep == Comma && |items| >= 1) || (sep == Or && |items| >= 2))
      && forall k :: 0 <= k < |items| ==> Grammatical(items[k])
  }

  /** Mixed content with element names must carry the asterisk. */
  ghost predicate GrammaticalModel(m: Model) {
    match m
    case Empty => true
    case Any => true
    case Mixed(names, close) =>
      && (forall k :: 0 <= k < |names| ==> names[k].Name? || names[k].PrefixedName?)
      && (close == CloseParenAsterisk || (close == CloseParen && names == []))
    case Children(group) => group.Group? && Grammatical(group)
  }

  function Text(p: Particle): seq<Token> {
    match p
    case Leaf(name) => [name]
    case Group(sep, items, close) => [OpenParen] + Joined(items, sep, |items|) + [close]
  }

  /** The first n items with separators between them. */
  function Joined(items: seq<Particle>, sep: Token, n: nat): seq<Token>
    requires n <= |items|
    decreases items, n
  {
    if n == 0 then []
    else if n == 1 then Text(items[0])
    else Joined(items, sep, n - 1) + [sep] + Text(items[n - 1])
  }

  function Names(names: seq<Token>, n: nat): seq<Token>
    requires n <= |names|
  {
    if n == 0 then [] else Names(names, n - 1) + [Or, names[n - 1]]
  }

  function ModelText(m: Model): seq<Token> {
    match m
    case Empty => [Name("EMPTY")]
    case Any => [Name("ANY")]
    case Mixed(names, close) => [OpenParen, PoundName("PCDATA")] + Names(names, |names|) + [close]
    case Children(group) => Text(group)
  }

  /** The tokens that are not white space. */
  function Solid(ts: seq<Token>): seq<Token> {
    if ts == [] then []
    else if ts[|ts| - 1] == Space then Solid(ts[..|ts| - 1])
    else Solid(ts[..|ts| - 1]) + [ts[|ts| - 1]]
  }

  // ---- the reader ----

  /** A group being read: its connector (a zero character before the first) and the members so far. */
  datatype Frame = Frame(conn: char, items: seq<Particle>)

  const NEW_FRAME: Frame := Frame('\0', [])

  datatype State =
    | Start
    | Opened
    | Pcdata
    | MixedName(names: seq<Token>)
    | MixedAfter(names: seq<Token>)
    | Item(frames: seq<Frame>)
    | After(frames: seq<Frame>)
    | Complete(model: Model)
    | Accepted(model: Model)
    | Failed

  function SepToken(conn: char): Token { if conn == '|' then Or else Comma }

  /** The innermost group gains a member. */
  function Add(frames: seq<Frame>, p: Particle): seq<Frame>
    requires frames != []
  {
    var n := |frames| - 1;
    frames[..n] + [Frame(frames[n].conn, frames[n].items + [p])]
  }

  function SetConn(frames: seq<Frame>, conn: char): seq<Frame>
    requires frames != []
  {
    frames[..|frames| - 1] + [Frame(conn, frames[|frames| - 1].items)]
  }

  function ReadItem(frames: seq<Frame>, t: Token): State
    requires frames != []
  {
    if t == OpenParen then Item(frames + [NEW_FRAME])
    else if IsLeaf(t) then After(Add(frames, Leaf(t)))
    else Failed
  }

  /** The innermost group ends. */
  function Close(frames: seq<Frame>, t: Token): State
    requires frames != []
  {
    var n := |frames| - 1;
    var g := Group(SepToken(frames[n].conn), frames[n].items, t);
    if n == 0 then Complete(Children(g)) else After(Add(frames[..n], g))
  }

  function Connect(frames: seq<Frame>, conn: char): State
    requires frames != []
  {
    if frames[|frames| - 1].conn in ['\0', conn] then Item(SetConn(frames, conn)) else Failed
  }

  /** Reads one token that is not white space. */
  function Read(st: State, t: Token): State
    requires (st.Item? || st.After?) ==> st.frames != []
  {
    match st
    case Start =>
      if t == Name("EMPTY") then Complete(Empty)
      else if t == Name("ANY") then Complete(Any)
      else if t == OpenParen then Opened
      else Failed
    case Opened => if t == PoundName("PCDATA") then Pcdata else ReadItem([NEW_FRAME], t)
    case Pcdata =>
      if t == CloseParen || t == CloseParenAsterisk then Complete(Mixed([], t))
      else if t == Or then MixedName([])
      else Failed
    case MixedName(names) => if t.Name? || t.PrefixedName? then MixedAfter(names + [t]) else Failed
    case MixedAfter(names) =>
      if t == CloseParenAsterisk then Complete(Mixed(names, t))
      else if t == Or then MixedName(names)
      else Failed
    case Item(frames) => ReadItem(frames, t)
    case After(frames) =>
      if t == Comma then Connect(frames, ',')
      else if t == Or then Connect(frames, '|')
      else if IsClose(t) then Close(frames, t)
      else Failed
    case Complete(model) => if t == DeclClose then Accepted(model) else Failed
    case Accepted(_) => Failed
    case Failed => Failed
  }

  /** White space is skipped everywhere inside the declaration. */
  function Step(st: State, t: Token): State
    requires (st.Item? || st.After?) ==> st.frames != []
  {
    if t == Space && !st.Accepted? then st else Read(st, t)
  }

  /** The state after all of ts. */
  function Run(st: State, ts: seq<Token>): (r: State)
    requires (st.Item? || st.After?) ==> st.frames != []
    ensures (r.Item? || r.After?) ==> r.frames != []
  {
    if ts == [] then st else Step(Run(st, ts[..|ts| - 1]), ts[|ts| - 1])
  }

  lemma {:induction false} RunConcat(st: State, a: seq<Token>, b: seq<Token>)
    requires (st.Item? || st.After?) ==> st.frames != []
    ensures Run(st, a + b) == Run(Run(st, a), b)
  {
    if b == [] {
      assert a + b == a;
    } else {
      DropLast(a, b);
      RunConcat(st, a, b[..|b| - 1]);
    }
  }

  lemma {:induction false} RunOne(st: State, t: Token)
    requires (st.Item? || st.After?) ==> st.frames != []
    ensures Run(st, [t]) == Step(st, t)
  {
    assert [t][..0] == [];
  }

  // ---- whatever is read is grammatical ----

  /** A group waiting for a member: nothing read yet, or a separator read last. */
  ghost predicate WaitingOk(f: Frame) {
    && (forall k :: 0 <= k < |f.items| ==> Grammatical(f.items[k]))
    && f.conn in ['\0', ',', '|']
    && (f.items == [] <==> f.conn == '\0')
  }

  /** A group whose last token belongs to a member: one member without a connector, or more with one. */
  ghost predicate FilledOk(f: Frame) {
    && (forall k :: 0 <= k < |f.items| ==> Grammatical(f.items[k]))
    && f.conn in ['\0', ',', '|']
    && (if f.conn == '\0' then |f.items| == 1 else |f.items| >= 2)
  }

  ghost predicate AllWaiting(frames: seq<Frame>, n: nat)
    requires n <= |frames|
  {
    forall k :: 0 <= k < n ==> WaitingOk(frames[k])
  }

  ghost predicate StateOk(st: State) {
    match st
    case Item(frames) => frames != [] && AllWaiting(frames, |frames|)
    case After(frames) =>
      frames != [] && AllWaiting(frames, |frames| - 1) && FilledOk(frames[|frames| - 1])
    case MixedName(names) => GrammaticalModel(Mixed(names, CloseParenAsterisk))
    case MixedAfter(names) => GrammaticalModel(Mixed(names, CloseParenAsterisk))
    case Complete(model) => GrammaticalModel(model)
    case Accepted(model) => GrammaticalModel(model)
    case _ => true
  }

  /** The tokens of an open group without a last separator. */
  function Filled(f: Frame): seq<Token> { [OpenParen] + Joined(f.items, SepToken(f.conn), |f.items|) }

  /** The tokens of a group waiting for a member. */
  function Waiting(f: Frame): seq<Token> { Filled(f) + if f.items == [] then [] else [SepToken(f.conn)] }

  function WaitingTo(frames: seq<Frame>, n: nat): seq<Token>
    requires n <= |frames|
  {
    if n == 0 then [] else WaitingTo(frames, n - 1) + Waiting(frames[n - 1])
  }

  /** The tokens a state has taken in. */
  function Taken(st: State): seq<Token>
    requires StateOk(st)
  {
    match st
    case Start => []
    case Opened => [OpenParen]
    case Pcdata => [OpenParen, PoundName("PCDATA")]
    case MixedName(names) => [OpenParen, PoundName("PCDATA")] + Names(names, |names|) + [Or]
    case MixedAfter(names) => [OpenParen, PoundName("PCDATA")] + Names(names, |names|)
    case Item(frames) => WaitingTo(frames, |frames|)
    case After(frames) => WaitingTo(frames, |frames| - 1) + Filled(frames[|frames| - 1])
    case Complete(model) => ModelText(model)
    case Accepted(model) => ModelText(model) + [DeclClose]
    case Failed => []
  }

  lemma {:induction false} JoinedLocal(a: seq<Particle>, b: seq<Particle>, sep: Token, n: nat)
    requires n <= |a| && n <= |b| && a[..n] == b[..n]
    ensures Joined(a, sep, n) == Joined(b, sep, n)
    decreases n
  {
    if n > 0 {
      assert a[n - 1] == a[..n][n - 1] == b[..n][n - 1] == b[n - 1];
      assert a[0] == a[..n][0] == b[..n][0] == b[0];
      assert a[..n - 1] == a[..n][..n - 1] == b[..n][..n - 1];
      JoinedLocal(a, b, sep, n - 1);
    }
  }

  /** The separator does not matter to a group of one. */
  lemma {:induction false} JoinedOne(p: Particle, sep: Token)
    ensures Joined([p], sep, 1) == Text(p)
  {}

  lemma {:induction false} WaitingLocal(a: seq<Frame>, b: seq<Frame>, n: nat)
    requires n <= |a| && n <= |b| && a[..n] == b[..n]
    ensures WaitingTo(a, n) == WaitingTo(b, n)
  {
    if n > 0 {
      assert a[n - 1] == a[..n][n - 1] == b[..n][n - 1] == b[n - 1];
      assert a[..n - 1] == a[..n][..n - 1] == b[..n][..n - 1];
      WaitingLocal(a, b, n - 1);
    }
  }

  /** A member joins the innermost waiting group. */
  lemma {:induction false} AddTakes(f: Frame, p: Particle)
    requires WaitingOk(f) && Grammatical(p)
    ensures FilledOk(Frame(f.conn, f.items + [p]))
    ensures Filled(Frame(f.conn, f.items + [p])) == Waiting(f) + Text(p)
  {
    var items := f.items + [p];
    if f.items == [] {
      assert items == [p];
      JoinedOne(p, SepToken(f.conn));
      assert Filled(Frame(f.conn, items)) == Waiting(f) + Text(p);
    } else {
      JoinedLocal(items, f.items, SepToken(f.conn), |f.items|);
      var j, s := Joined(f.items, SepToken(f.conn), |f.items|), [SepToken(f.conn)];
      assert [OpenParen] + (j + s + Text(p)) == ([OpenParen] + j) + s + Text(p);
    }
  }

  lemma {:induction false} AddKeeps(frames: seq<Frame>, p: Particle)
    requires frames != [] && AllWaiting(frames, |frames|) && Grammatical(p)
    ensures StateOk(After(Add(frames, p)))
    ensures Taken(After(Add(frames, p))) == Taken(Item(frames)) + Text(p)
  {
    var n := |frames| - 1;
    AddTakes(frames[n], p);
    WaitingLocal(frames, Add(frames, p), n);
    Assoc(WaitingTo(frames, n), Waiting(frames[n]), Text(p));
  }

  lemma {:induction false} OpenKeeps(frames: seq<Frame>)
    requires AllWaiting(frames, |frames|)
    ensures StateOk(Item(frames + [NEW_FRAME]))
    ensures Taken(Item(frames + [NEW_FRAME])) == WaitingTo(frames, |frames|) + [OpenParen]
  {
    WaitingLocal(frames, frames + [NEW_FRAME], |frames|);
    assert Waiting(NEW_FRAME) == [OpenParen];
  }

  lemma {:induction false} ConnectTakes(f: Frame, conn: char)
    requires FilledOk(f) && conn in [',', '|'] && f.conn in ['\0', conn]
    ensures WaitingOk(Frame(conn, f.items))
    ensures Waiting(Frame(conn, f.items)) == Filled(f) + [SepToken(conn)]
  {
    if f.conn == '\0' {
      assert f.items == [f.items[0]];
      JoinedOne(f.items[0], SepToken(f.conn));
      JoinedOne(f.items[0], SepToken(conn));
    }
  }

  lemma {:induction false} ConnectKeeps(frames: seq<Frame>, conn: char)
    requires StateOk(After(frames)) && conn in [',', '|'] && Connect(frames, conn) != Failed
    ensures StateOk(Connect(frames, conn))
    ensures Taken(Connect(frames, conn)) == Taken(After(frames)) + [SepToken(conn)]
  {
    var n := |frames| - 1;
    ConnectTakes(frames[n], conn);
    WaitingLocal(frames, SetConn(frames, conn), n);
    Assoc(WaitingTo(frames, n), Filled(frames[n]), [SepToken(conn)]);
  }

  lemma {:induction false} ClosedGroup(f: Frame, t: Token)
    requires FilledOk(f) && IsClose(t)
    ensures var g := Group(SepToken(f.conn), f.items, t); Grammatical(g) && Text(g) == Filled(f) + [t]
  {}

  lemma {:induction false} CloseKeeps(frames: seq<Frame>, t: Token)
    requires StateOk(After(frames)) && IsClose(t)
    ensures StateOk(Close(frames, t))
    ensures Taken(Close(frames, t)) == Taken(After(frames)) + [t]
  {
    var n := |frames| - 1;
    var g := Group(SepToken(frames[n].conn), frames[n].items, t);
    ClosedGroup(frames[n], t);
    if n == 0 {
      assert Taken(After(frames)) == Filled(frames[0]);
    } else {
      AddKeeps(frames[..n], g);
      WaitingLocal(frames, frames[..n], n);
      Assoc(WaitingTo(frames, n), Filled(frames[n]), [t]);
    }
  }

  lemma {:induction false} ReadItemKeeps(frames: seq<Frame>, t: Token)
    requires frames != [] && AllWaiting(frames, |frames|) && ReadItem(frames, t) != Failed
    ensures StateOk(ReadItem(frames, t))
    ensures Taken(ReadItem(frames, t)) == WaitingTo(frames, |frames|) + [t]
  {
    if t == OpenParen {
      OpenKeeps(frames);
    } else {
      AddKeeps(frames, Leaf(t));
    }
  }

  /** Every token read without failure is exactly one more token taken in, and the state stays grammatical. */
  lemma {:induction false} ReadKeeps(st: State, t: Token)
    requires StateOk(st) && Read(st, t) != Failed
    ensures StateOk(Read(st, t)) && Taken(Read(st, t)) == Taken(st) + [t]
  {
    match st
    case Opened =>
      if t != PoundName("PCDATA") {
        ReadItemKeeps([NEW_FRAME], t);
        assert [] + [NEW_FRAME] == [NEW_FRAME];
        OpenKeeps([]);
      }
    case Item(frames) => ReadItemKeeps(frames, t);
    case After(frames) =>
      if t == Comma {
        ConnectKeeps(frames, ',');
      } else if t == Or {
        ConnectKeeps(frames, '|');
      } else {
        CloseKeeps(frames, t);
      }
    case MixedName(names) => MixedKeeps(names, t);
    case _ =>
  }

  lemma {:induction false} NamesLocal(a: seq<Token>, b: seq<Token>, n: nat)
    requires n <= |a| && n <= |b| && a[..n] == b[..n]
    ensures Names(a, n) == Names(b, n)
  {
    if n > 0 {
      assert a[n - 1] == a[..n][n - 1] == b[..n][n - 1] == b[n - 1];
      assert a[..n - 1] == a[..n][..n - 1] == b[..n][..n - 1];
      NamesLocal(a, b, n - 1);
    }
  }

  lemma {:induction false} MixedKeeps(names: seq<Token>, t: Token)
    requires StateOk(MixedName(names)) && (t.Name? || t.PrefixedName?)
    ensures StateOk(MixedAfter(names + [t]))
    ensures Taken(MixedAfter(names + [t])) == Taken(MixedName(names)) + [t]
  {
    NamesLocal(names, names + [t], |names|);
    assert Names(names + [t], |names| + 1) == Names(names, |names|) + [Or, t];
  }

  /** A run that has not failed has taken in exactly the solid tokens. */
  lemma {:induction false} RunTakes(ts: seq<Token>)
    requires Run(Start, ts) != Failed
    ensures StateOk(Run(Start, ts)) && Taken(Run(Start, ts)) == Solid(ts)
  {
    if ts != [] {
      var n := |ts| - 1;
      RunTakes(ts[..n]);
      if ts[n] != Space || Run(Start, ts[..n]).Accepted? {
        ReadKeeps(Run(Start, ts[..n]), ts[n]);
      }
    }
  }

  // ---- whatever is grammatical is read ----

  /** Reading a member's tokens adds that member to the innermost group. */
  lemma {:induction false} ReadsParticle(frames: seq<Frame>, p: Particle)
    requires frames != [] && Grammatical(p)
    ensures Run(Item(frames), Text(p)) == After(Add(frames, p))
    decreases p
  {
    match p
    case Leaf(name) => RunOne(Item(frames), name);
    case Group(sep, items, close) =>
      ReadsItems(frames, items, sep, |items|);
      ReadsGroup(frames, sep, items, close);
  }

  lemma {:induction false} ReadsGroup(frames: seq<Frame>, sep: Token, items: seq<Particle>, close: Token)
    requires frames != [] && Grammatical(Group(sep, items, close))
    requires Run(Item(frames + [NEW_FRAME]), Joined(items, sep, |items|))
          == After(frames + [Members(sep, items, |items|)])
    ensures Run(Item(frames), Text(Group(sep, items, close))) == After(Add(frames, Group(sep, items, close)))
  {
    var j, filled := Joined(items, sep, |items|), After(frames + [Members(sep, items, |items|)]);
    RunOne(Item(frames), OpenParen);
    RunChain(Item(frames), [OpenParen], Item(frames + [NEW_FRAME]), j, filled);
    ReadsClose(frames, sep, items, close);
    RunChain(Item(frames), [OpenParen] + j, filled, [close], After(Add(frames, Group(sep, items, close))));
  }

  function Conn(sep: Token): char { if sep == Or then '|' else ',' }

  /** The innermost group after n members. */
  function Members(sep: Token, items: seq<Particle>, n: nat): Frame
    requires n <= |items|
  {
    Frame(if n <= 1 then '\0' else Conn(sep), items[..n])
  }

  /** The innermost group waiting for member n. */
  function Expecting(sep: Token, items: seq<Particle>, n: nat): Frame
    requires n <= |items|
  {
    Frame(if n == 0 then '\0' else Conn(sep), items[..n])
  }

  lemma {:induction false} ReadsClose(frames: seq<Frame>, sep: Token, items: seq<Particle>, close: Token)
    requires frames != [] && Grammatical(Group(sep, items, close))
    ensures Run(After(frames + [Members(sep, items, |items|)]), [close]) == After(Add(frames, Group(sep, items, close)))
  {
    var all := frames + [Members(sep, items, |items|)];
    RunOne(After(all), close);
    assert items[..|items|] == items;
    assert all[..|frames|] == frames;
  }

  lemma {:induction false} RunChain(st: State, a: seq<Token>, mid: State, b: seq<Token>, end: State)
    requires (st.Item? || st.After?) ==> st.frames != []
    requires (mid.Item? || mid.After?) ==> mid.frames != []
    requires Run(st, a) == mid && Run(mid, b) == end
    ensures Run(st, a + b) == end
  {
    RunConcat(st, a, b);
  }

  lemma {:induction false} ReadsSep(frames: seq<Frame>, items: seq<Particle>, sep: Token, n: nat)
    requires 0 < n <= |items| && sep in [Comma, Or]
    ensures Run(After(frames + [Members(sep, items, n)]), [sep]) == Item(frames + [Expecting(sep, items, n)])
  {
    RunOne(After(frames + [Members(sep, items, n)]), sep);
    assert (frames + [Members(sep, items, n)])[..|frames|] == frames;
  }

  lemma {:induction false} MembersGrow(frames: seq<Frame>, sep: Token, items: seq<Particle>, n: nat)
    requires n < |items|
    ensures Add(frames + [Expecting(sep, items, n)], items[n]) == frames + [Members(sep, items, n + 1)]
  {
    assert items[..n + 1] == items[..n] + [items[n]];
    assert (frames + [Expecting(sep, items, n)])[..|frames|] == frames;
  }

  /** One more separator and member. */
  lemma {:induction false} ReadsMember(frames: seq<Frame>, items: seq<Particle>, sep: Token, n: nat)
    requires 1 < n <= |items| && sep in [Comma, Or]
    requires Run(Item(frames + [NEW_FRAME]), Joined(items, sep, n - 1)) == After(frames + [Members(sep, items, n - 1)])
    requires Run(Item(frames + [Expecting(sep, items, n - 1)]), Text(items[n - 1]))
          == After(frames + [Members(sep, items, n)])
    ensures Run(Item(frames + [NEW_FRAME]), Joined(items, sep, n)) == After(frames + [Members(sep, items, n)])
  {
    var front, before := After(frames + [Members(sep, items, n - 1)]), Item(frames + [Expecting(sep, items, n - 1)]);
    var start, j := Item(frames + [NEW_FRAME]), Joined(items, sep, n - 1);
    ReadsSep(frames, items, sep, n - 1);
    RunChain(start, j, front, [sep], before);
    RunChain(start, j + [sep], before, Text(items[n - 1]), After(frames + [Members(sep, items, n)]));
  }

  lemma {:induction false} ReadsItems(frames: seq<Frame>, items: seq<Particle>, sep: Token, n: nat)
    requires 0 < n <= |items| && sep in [Comma, Or]
    requires forall k :: 0 <= k < |items| ==> Grammatical(items[k])
    ensures Run(Item(frames + [NEW_FRAME]), Joined(items, sep, n)) == After(frames + [Members(sep, items, n)])
    decreases items, n
  {
    ReadsParticle(frames + [Expecting(sep, items, n - 1)], items[n - 1]);
    MembersGrow(frames, sep, items, n - 1);
    if n == 1 {
      assert items[..0] == [];
    } else {
      ReadsItems(frames, items, sep, n - 1);
      ReadsMember(frames, items, sep, n);
    }
  }

  lemma {:induction false} ReadsName(names: seq<Token>, st: State, name: Token)
    requires (st == Pcdata && names == []) || st == MixedAfter(names)
    requires name.Name? || name.PrefixedName?
    ensures Run(st, [Or, name]) == MixedAfter(names + [name])
  {
    assert [Or] + [name] == [Or, name];
    RunOne(st, Or);
    RunOne(MixedName(names), name);
    RunChain(st, [Or], MixedName(names), [name], MixedAfter(names + [name]));
  }

  lemma {:induction false} ReadsNames(names: seq<Token>, n: nat)
    requires 0 < n <= |names| && forall k :: 0 <= k < |names| ==> names[k].Name? || names[k].PrefixedName?
    ensures Run(Pcdata, Names(names, n)) == MixedAfter(names[..n])
  {
    assert names[..n] == names[..n - 1] + [names[n - 1]];
    if n == 1 {
      ReadsName([], Pcdata, names[0]);
      assert Names(names, 1) == [Or, names[0]];
    } else {
      ReadsNames(names, n - 1);
      ReadsName(names[..n - 1], MixedAfter(names[..n - 1]), names[n - 1]);
      RunChain(Pcdata, Names(names, n - 1), MixedAfter(names[..n - 1]), [Or, names[n - 1]], MixedAfter(names[..n]));
    }
  }

  lemma {:induction false} ReadsPcdata()
    ensures Run(Start, [OpenParen, PoundName("PCDATA")]) == Pcdata
  {
    assert [OpenParen] + [PoundName("PCDATA")] == [OpenParen, PoundName("PCDATA")];
    RunOne(Start, OpenParen);
    RunOne(Opened, PoundName("PCDATA"));
    RunChain(Start, [OpenParen], Opened, [PoundName("PCDATA")], Pcdata);
  }

  lemma {:induction false} ReadsMixedTail(names: seq<Token>, close: Token)
    requires GrammaticalModel(Mixed(names, close))
    ensures Run(Pcdata, Names(names, |names|) + [close]) == Complete(Mixed(names, close))
  {
    if names == [] {
      RunOne(Pcdata, close);
      assert Names(names, 0) + [close] == [close];
    } else {
      ReadsNames(names, |names|);
      assert names[..|names|] == names;
      RunOne(MixedAfter(names), close);
      RunChain(Pcdata, Names(names, |names|), MixedAfter(names), [close], Complete(Mixed(names, close)));
    }
  }

  lemma {:induction false} ReadsMixed(names: seq<Token>, close: Token)
    requires GrammaticalModel(Mixed(names, close))
    ensures Run(Start, ModelText(Mixed(names, close))) == Complete(Mixed(names, close))
  {
    var head := [OpenParen, PoundName("PCDATA")];
    ReadsPcdata();
    ReadsMixedTail(names, close);
    RunChain(Start, head, Pcdata, Names(names, |names|) + [close], Complete(Mixed(names, close)));
    Assoc(head, Names(names, |names|), [close]);
  }

  /** The first token of a member is read alike right after the first parenthesis and further in. */
  lemma {:induction false} OpenedLikeItem(ts: seq<Token>)
    requires ts != [] && ts[0] != PoundName("PCDATA") && ts[0] != Space
    ensures Run(Opened, ts) == Run(Item([NEW_FRAME]), ts)
  {
    if |ts| == 1 {
      assert ts == [ts[0]];
      RunOne(Opened, ts[0]);
      RunOne(Item([NEW_FRAME]), ts[0]);
    } else {
      OpenedLikeItem(ts[..|ts| - 1]);
    }
  }

  lemma {:induction false} TextStarts(p: Particle)
    requires Grammatical(p)
    ensures Text(p) != [] && (Text(p)[0] == OpenParen || IsLeaf(Text(p)[0]))
  {}

  lemma {:induction false} JoinedStarts(items: seq<Particle>, sep: Token, n: nat)
    requires 0 < n <= |items| && forall k :: 0 <= k < |items| ==> Grammatical(items[k])
    ensures Joined(items, sep, n) != []
    ensures Joined(items, sep, n)[0] == OpenParen || IsLeaf(Joined(items, sep, n)[0])
    decreases n
  {
    TextStarts(items[n - 1]);
    if n > 1 {
      JoinedStarts(items, sep, n - 1);
    }
  }

  lemma {:induction false} ReadsFirstItems(g: Particle)
    requires g.Group? && Grammatical(g)
    ensures Run(Opened, Joined(g.items, g.sep, |g.items|)) == After([Members(g.sep, g.items, |g.items|)])
  {
    JoinedStarts(g.items, g.sep, |g.items|);
    OpenedLikeItem(Joined(g.items, g.sep, |g.items|));
    ReadsItems([], g.items, g.sep, |g.items|);
    assert [] + [NEW_FRAME] == [NEW_FRAME];
    assert [] + [Members(g.sep, g.items, |g.items|)] == [Members(g.sep, g.items, |g.items|)];
  }

  lemma {:induction false} ReadsLastClose(g: Particle)
    requires g.Group? && Grammatical(g)
    ensures Run(After([Members(g.sep, g.items, |g.items|)]), [g.close]) == Complete(Children(g))
  {
    RunOne(After([Members(g.sep, g.items, |g.items|)]), g.close);
    assert g.items[..|g.items|] == g.items;
  }

  lemma {:induction false} ReadsChildren(g: Particle)
    requires g.Group? && Grammatical(g)
    ensures Run(Start, Text(g)) == Complete(Children(g))
  {
    var j, filled := Joined(g.items, g.sep, |g.items|), After([Members(g.sep, g.items, |g.items|)]);
    RunOne(Start, OpenParen);
    ReadsFirstItems(g);
    RunChain(Start, [OpenParen], Opened, j, filled);
    ReadsLastClose(g);
    RunChain(Start, [OpenParen] + j, filled, [g.close], Complete(Children(g)));
  }

  lemma {:induction false} ReadsContent(m: Model)
    requires GrammaticalModel(m)
    ensures Run(Start, ModelText(m)) == Complete(m)
  {
    match m
    case Empty => RunOne(Start, Name("EMPTY"));
    case Any => RunOne(Start, Name("ANY"));
    case Mixed(names, close) => ReadsMixed(names, close);
    case Children(group) => ReadsChildren(group);
  }

  /** Reading back a model's text gives that model. */
  lemma {:induction false} ReadsModel(m: Model)
    requires GrammaticalModel(m)
    ensures Run(Start, ModelText(m) + [DeclClose]) == Accepted(m)
  {
    ReadsContent(m);
    RunOne(Complete(m), DeclClose);
    RunChain(Start, ModelText(m), Complete(m), [DeclClose], Accepted(m));
  }

  /** White space makes no difference, except that the declaration ends at its closing token. */
  lemma {:induction false} SpaceSkipped(ts: seq<Token>)
    ensures Run(Start, ts) == Run(Start, Solid(ts)) ||
              (Run(Start, ts) == Failed && Run(Start, Solid(ts)).Accepted? && ts != [] && ts[|ts| - 1] == Space)
  {
    if ts != [] {
      var n := |ts| - 1;
      SpaceSkipped(ts[..n]);
      if ts[n] != Space {
        DropLast(Solid(ts[..n]), [ts[n]]);
        assert Solid(ts)[..|Solid(ts)| - 1] == Solid(ts[..n]) by {
          assert [ts[n]][..0] == [];
          assert Solid(ts[..n]) + [] == Solid(ts[..n]);
        }
      }
    }
  }

  /**
   * The accepted token strings are exactly the texts of the grammar with white space anywhere between the tokens,
   * and the accepted model is the one the text came from.
   */
  lemma {:induction false} AcceptsExactly(ts: seq<Token>, m: Model)
    ensures Run(Start, ts) == Accepted(m) <==>
              && GrammaticalModel(m) && ts != [] && ts[|ts| - 1] == DeclClose
              && Solid(ts) == ModelText(m) + [DeclClose]
  {
    if Run(Start, ts) == Accepted(m) {
      RunTakes(ts);
    } else if GrammaticalModel(m) && ts != [] && ts[|ts| - 1] == DeclClose && Solid(ts) == ModelText(m) + [DeclClose] {
      ReadsModel(m);
      SpaceSkipped(ts);
      assert false;
    }
  }
}
