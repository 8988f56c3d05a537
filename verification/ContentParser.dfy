/** The content-model machine: one handler per position, a level counter, and the array of group connectors. */
module ContentParser {
  import opened ContentModel

  datatype Handler =
    Element1 | Element2 | Element3 | Element4 | Element5 | Element6 | Element7 | CloseDecl | InternalSubset | ErrorState

  datatype Role = NoRole | Content | GroupOpen | GroupClose | GroupSequence | GroupChoice | ErrorRole

  function HandlerOf(st: State): Handler {
    match st
    case Start => Element1
    case Opened => Element2
    case Pcdata => Element3
    case MixedName(_) => Element4
    case MixedAfter(_) => Element5
    case Item(_) => Element6
    case After(_) => Element7
    case Complete(_) => CloseDecl
    case Accepted(_) => InternalSubset
    case Failed => ErrorState
  }

  /** The groups that are open. */
  function Frames(st: State): seq<Frame> {
    match st
    case Opened => [NEW_FRAME]
    case Item(frames) => frames
    case After(frames) => frames
    case _ => []
  }

  /** The next state as far as the handlers know: they do not look at the connectors. */
  function Unchecked(st: State, t: Token): State
    requires (st.Item? || st.After?) ==> st.frames != []
  {
    if st.After? && t == Comma then Item(SetConn(st.frames, ','))
    else if st.After? && t == Or then Item(SetConn(st.frames, '|'))
    else Step(st, t)
  }

  function RoleOf(st: State, t: Token): Role
    requires (st.Item? || st.After?) ==> st.frames != []
  {
    if Unchecked(st, t).Failed? then ErrorRole
    else if t == OpenParen then GroupOpen
    else if st.After? && t == Comma then GroupSequence
    else if st.After? && t == Or then GroupChoice
    else if IsClose(t) then GroupClose
    else if t.PoundName? || IsLeaf(t) then Content
    else NoRole
  }

  class PrologState {
    var handler: Handler
    var level: nat

    constructor ()
      ensures handler == Element1
    {
      handler := Element1;
    }

    /** The handler is the one for st, and the level counts the open groups. */
    ghost predicate Mirrors(st: State)
      reads this
    {
      && handler == HandlerOf(st)
      && (Frames(st) != [] ==> level == |Frames(st)|)
      && ((st.Item? || st.After?) ==> st.frames != [])
    }

    method Common() returns (role: Role)
      modifies this`handler
      ensures handler == ErrorState && role == ErrorRole
    {
      handler := ErrorState;
      role := ErrorRole;
    }

    method RoleElement1(tok: Token, ghost st: State) returns (role: Role)
      requires Mirrors(st) && handler == Element1
      modifies this
      ensures Mirrors(Unchecked(st, tok)) && role == RoleOf(st, tok)
    {
      match tok
      case Space => return NoRole;
      case Name(text) =>
        if text == "EMPTY" || text == "ANY" {
          handler := CloseDecl;
          return Content;
        }
        role := Common();
      case OpenParen =>
        handler, level := Element2, 1;
        return GroupOpen;
      case _ => role := Common();
    }

    method RoleElement2(tok: Token, ghost st: State) returns (role: Role)
      requires Mirrors(st) && handler == Element2
      modifies this
      ensures Mirrors(Unchecked(st, tok)) && role == RoleOf(st, tok)
    {
      if tok == Space {
        return NoRole;
      }
      if tok == PoundName("PCDATA") {
        handler := Element3;
        return Content;
      }
      if tok == OpenParen {
        handler, level := Element6, 2;
        return GroupOpen;
      }
      if IsLeaf(tok) {
        handler := Element7;
        return Content;
      }
      role := Common();
    }

    method RoleElement3(tok: Token, ghost st: State) returns (role: Role)
      requires Mirrors(st) && handler == Element3
      modifies this
      ensures Mirrors(Unchecked(st, tok)) && role == RoleOf(st, tok)
    {
      match tok
      case Space => return NoRole;
      case CloseParen =>
        handler := CloseDecl;
        return GroupClose;
      case CloseParenAsterisk =>
        handler := CloseDecl;
        return GroupClose;
      case Or =>
        handler := Element4;
        return NoRole;
      case _ => role := Common();
    }

    method RoleElement4(tok: Token, ghost st: State) returns (role: Role)
      requires Mirrors(st) && handler == Element4
      modifies this
      ensures Mirrors(Unchecked(st, tok)) && role == RoleOf(st, tok)
    {
      match tok
      case Space => return NoRole;
      case Name(_) =>
        handler := Element5;
        return Content;
      case PrefixedName(_) =>
        handler := Element5;
        return Content;
      case _ => role := Common();
    }

    method RoleElement5(tok: Token, ghost st: State) returns (role: Role)
      requires Mirrors(st) && handler == Element5
      modifies this
      ensures Mirrors(Unchecked(st, tok)) && role == RoleOf(st, tok)
    {
      match tok
      case Space => return NoRole;
      case CloseParenAsterisk =>
        handler := CloseDecl;
        return GroupClose;
      case Or =>
        handler := Element4;
        return NoRole;
      case _ => role := Common();
    }

    method RoleElement6(tok: Token, ghost st: State) returns (role: Role)
      requires Mirrors(st) && handler == Element6
      modifies this
      ensures Mirrors(Unchecked(st, tok)) && role == RoleOf(st, tok)
    {
      if tok == Space {
        return NoRole;
      }
      if tok == OpenParen {
        level := level + 1;
        return GroupOpen;
      }
      if IsLeaf(tok) {
        handler := Element7;
        return Content;
      }
      role := Common();
    }

    method RoleElement7(tok: Token, ghost st: State) returns (role: Role)
      requires Mirrors(st) && handler == Element7
      modifies this
      ensures Mirrors(Unchecked(st, tok)) && role == RoleOf(st, tok)
    {
      if tok == Space {
        return NoRole;
      }
      if IsClose(tok) {
        level := level - 1;
        if level == 0 {
          handler := CloseDecl;
        }
        return GroupClose;
      }
      if tok == Comma {
        handler := Element6;
        return GroupSequence;
      }
      if tok == Or {
        handler := Element6;
        return GroupChoice;
      }
      role := Common();
    }

    method RoleDeclClose(tok: Token, ghost st: State) returns (role: Role)
      requires Mirrors(st) && handler == CloseDecl
      modifies this
      ensures Mirrors(Unchecked(st, tok)) && role == RoleOf(st, tok)
    {
      match tok
      case Space => return NoRole;
      case DeclClose =>
        handler := InternalSubset;
        return NoRole;
      case _ => role := Common();
    }

    /** Calls the current handler. */
    method TokenRole(tok: Token, ghost st: State) returns (role: Role)
      requires Mirrors(st) && !st.Accepted? && !st.Failed?
      modifies this
      ensures Mirrors(Unchecked(st, tok)) && role == RoleOf(st, tok)
    {
      if handler == Element1 {
        role := RoleElement1(tok, st);
      } else if handler == Element2 {
        role := RoleElement2(tok, st);
      } else if handler == Element3 {
        role := RoleElement3(tok, st);
      } else if handler == Element4 {
        role := RoleElement4(tok, st);
      } else if handler == Element5 {
        role := RoleElement5(tok, st);
      } else if handler == Element6 {
        role := RoleElement6(tok, st);
      } else if handler == Element7 {
        role := RoleElement7(tok, st);
      } else {
        role := RoleDeclClose(tok, st);
      }
    }
  }

  /** The groups of b are outer groups of a with the same connectors. */
  ghost predicate SamePlaces(a: seq<Frame>, b: seq<Frame>) {
    |b| <= |a| && forall k :: 0 <= k < |b| ==> b[k].conn == a[k].conn
  }

  lemma {:induction false} AddPlaces(frames: seq<Frame>, p: Particle)
    requires frames != []
    ensures SamePlaces(frames, Add(frames, p))
  {}

  lemma {:induction false} ItemFrames(frames: seq<Frame>, t: Token)
    requires frames != []
    ensures t == OpenParen ==> ReadItem(frames, t) == Item(frames + [NEW_FRAME])
    ensures IsLeaf(t) ==> ReadItem(frames, t).After? && SamePlaces(frames, ReadItem(frames, t).frames)
    ensures t != OpenParen && !IsLeaf(t) ==> ReadItem(frames, t) == Failed
  {
    if IsLeaf(t) {
      AddPlaces(frames, Leaf(t));
    }
  }

  lemma {:induction false} CloseFrames(frames: seq<Frame>, t: Token)
    requires frames != []
    ensures !Close(frames, t).Failed? && SamePlaces(frames, Frames(Close(frames, t)))
  {
    var n := |frames| - 1;
    if n > 0 {
      AddPlaces(frames[..n], Group(SepToken(frames[n].conn), frames[n].items, t));
    }
  }

  /** What a member read does to the open groups. */
  lemma {:induction false} RoleFramesBefore(st: State, t: Token)
    requires (st.Opened? || (st.Item? && st.frames != [])) && RoleOf(st, t) != ErrorRole
    ensures RoleOf(st, t) == GroupOpen ==> Frames(Step(st, t)) == Frames(st) + [NEW_FRAME]
    ensures RoleOf(st, t) !in [GroupOpen, GroupSequence, GroupChoice] ==>
              !Step(st, t).Failed? && SamePlaces(Frames(st), Frames(Step(st, t)))
    ensures RoleOf(st, t) !in [GroupSequence, GroupChoice]
  {
    ItemFrames(Frames(st), t);
  }

  lemma {:induction false} RoleFramesAfter(st: State, t: Token)
    requires st.After? && st.frames != [] && RoleOf(st, t) != ErrorRole
    ensures RoleOf(st, t) == GroupSequence ==> Step(st, t) == Connect(st.frames, ',')
    ensures RoleOf(st, t) == GroupChoice ==> Step(st, t) == Connect(st.frames, '|')
    ensures RoleOf(st, t) !in [GroupOpen, GroupSequence, GroupChoice] ==>
              !Step(st, t).Failed? && SamePlaces(st.frames, Frames(Step(st, t)))
    ensures RoleOf(st, t) != GroupOpen
  {
    if IsClose(t) {
      CloseFrames(st.frames, t);
    }
  }

  lemma {:induction false} RoleFramesElse(st: State, t: Token)
    requires !st.Opened? && !st.Item? && !st.After? && RoleOf(st, t) != ErrorRole
    ensures RoleOf(st, t) == GroupOpen ==> Frames(Step(st, t)) == Frames(st) + [NEW_FRAME]
    ensures RoleOf(st, t) != GroupOpen ==> !Step(st, t).Failed? && Frames(Step(st, t)) == []
    ensures RoleOf(st, t) !in [GroupSequence, GroupChoice]
  {}

  /** What each role does to the open groups. */
  lemma {:induction false} RoleFrames(st: State, t: Token)
    requires StateOk(st) && RoleOf(st, t) != ErrorRole
    ensures RoleOf(st, t) == GroupOpen ==> Frames(Step(st, t)) == Frames(st) + [NEW_FRAME]
    ensures RoleOf(st, t) == GroupSequence ==> st.After? && Step(st, t) == Connect(st.frames, ',')
    ensures RoleOf(st, t) == GroupChoice ==> st.After? && Step(st, t) == Connect(st.frames, '|')
    ensures RoleOf(st, t) !in [GroupOpen, GroupSequence, GroupChoice] ==>
              !Step(st, t).Failed? && SamePlaces(Frames(st), Frames(Step(st, t)))
  {
    if st.Opened? || st.Item? {
      RoleFramesBefore(st, t);
    } else if st.After? {
      RoleFramesAfter(st, t);
    } else {
      RoleFramesElse(st, t);
    }
  }

  lemma {:induction false} RoleFails(st: State, t: Token)
    requires StateOk(st) && RoleOf(st, t) == ErrorRole
    ensures Step(st, t).Failed?
  {}

  lemma {:induction false} CheckedMirrors(st: State, t: Token)
    requires StateOk(st) && !Step(st, t).Failed?
    ensures Unchecked(st, t) == Step(st, t)
  {}

  lemma {:induction false} StepKeeps(st: State, t: Token)
    requires StateOk(st) && !Step(st, t).Failed?
    ensures StateOk(Step(st, t)) && Unchecked(st, t) == Step(st, t)
  {
    CheckedMirrors(st, t);
    if t != Space || st.Accepted? {
      ReadKeeps(st, t);
    }
  }

  const INITIAL_GROUPS: nat := 32

  class Parser {
    const prologState: PrologState
    var groupConnector: array<char>
    var groupSize: nat
    ghost var st: State

    /** Every open group has its connector at its level, inside the array. */
    ghost predicate Holds(frames: seq<Frame>)
      reads this`groupConnector, groupConnector
    {
      frames != [] ==>
        && |frames| < groupConnector.Length
        && forall k :: 0 <= k < |frames| ==> groupConnector[k + 1] == frames[k].conn
    }

    ghost predicate Valid()
      reads this, groupConnector, prologState
    {
      StateOk(st) && prologState.Mirrors(st) && groupSize == groupConnector.Length && Holds(Frames(st))
    }

    constructor ()
      ensures Valid() && st == Start && fresh(prologState) && fresh(groupConnector) && groupSize == 0
    {
      prologState := new PrologState();
      groupConnector := new char[0];
      groupSize := 0;
      st := Start;
    }

    /** realloc: a longer array with the old contents. */
    method Reallocate(size: nat)
      requires groupConnector.Length <= size
      modifies this`groupConnector, this`groupSize
      ensures fresh(groupConnector) && groupConnector.Length == groupSize == size
      ensures groupConnector[..old(groupConnector.Length)] == old(groupConnector[..])
    {
      var longer := new char[size];
      for i := 0 to groupConnector.Length
        modifies longer
        invariant longer[..i] == groupConnector[..i]
      {
        longer[i] := groupConnector[i];
      }
      groupConnector, groupSize := longer, size;
    }

    /** A group has been opened at the current level: makes room and clears its connector. */
    method OpenGroup(ghost frames: seq<Frame>)
      requires prologState.level == |frames| + 1 && groupSize == groupConnector.Length && Holds(frames)
      modifies this`groupConnector, this`groupSize, groupConnector
      ensures groupConnector == old(groupConnector) || fresh(groupConnector)
      ensures groupSize == groupConnector.Length && Holds(frames + [NEW_FRAME])
    {
      if prologState.level >= groupSize {
        ghost var before := groupConnector[..];
        Reallocate(if groupSize > 0 then groupSize * 2 else INITIAL_GROUPS);
        assert forall k :: 0 <= k < |before| ==> groupConnector[k] == groupConnector[..|before|][k];
      }
      groupConnector[prologState.level] := '\0';
    }

    /** A separator inside the innermost group: fails when the group already has the other one. */
    method Separate(own: char, other: char, ghost frames: seq<Frame>) returns (ok: bool)
      requires frames != [] && prologState.level == |frames| && Holds(frames)
      modifies groupConnector
      ensures ok <==> frames[|frames| - 1].conn != other
      ensures ok ==> Holds(SetConn(frames, own))
    {
      if groupConnector[prologState.level] == other {
        return false;
      }
      groupConnector[prologState.level] := own;
      ok := true;
    }

    /** The group cases of the prolog loop. */
    method ConnectRole(role: Role, tok: Token, ghost before: State) returns (ok: bool)
      requires StateOk(before) && Holds(Frames(before)) && groupSize == groupConnector.Length
      requires role == RoleOf(before, tok) != ErrorRole && prologState.Mirrors(Unchecked(before, tok))
      modifies this`groupConnector, this`groupSize, groupConnector
      ensures groupConnector == old(groupConnector) || fresh(groupConnector)
      ensures ok <==> !Step(before, tok).Failed?
      ensures ok ==> Holds(Frames(Step(before, tok))) && groupSize == groupConnector.Length
    {
      RoleFrames(before, tok);
      ok := true;
      if role == GroupOpen {
        OpenGroup(Frames(before));
      } else if role == GroupSequence {
        ok := Separate(',', '|', before.frames);
      } else if role == GroupChoice {
        ok := Separate('|', ',', before.frames);
      }
    }

    /** One token of the declaration. */
    method Token(tok: Token) returns (ok: bool)
      requires Valid() && !st.Accepted? && !st.Failed?
      modifies this, prologState, groupConnector
      ensures groupConnector == old(groupConnector) || fresh(groupConnector)
      ensures st == Step(old(st), tok)
      ensures ok <==> !st.Failed?
      ensures ok ==> Valid()
    {
      ghost var before := st;
      var role := prologState.TokenRole(tok, st);
      st := Step(st, tok);
      if role == ErrorRole {
        RoleFails(before, tok);
        return false;
      }
      ok := ConnectRole(role, tok, before);
      if ok {
        StepKeeps(before, tok);
      }
    }

    /** The name of the next declaration: whatever level and connectors the last one left behind stay. */
    method ElementName()
      requires Valid() && st.Accepted?
      modifies this`st, prologState
      ensures Valid() && st == Start
    {
      prologState.handler := Element1;
      st := Start;
    }

    /**
     * Reads one declaration from ts: stops behind its closing token, at an error, or when ts runs out.  What has been
     * read is a declaration of the grammar exactly when there was no error and the internal subset goes on.
     */
    method Declaration(ts: seq<Token>) returns (n: nat, ok: bool)
      requires Valid() && st == Start
      modifies this, prologState, groupConnector
      ensures groupConnector == old(groupConnector) || fresh(groupConnector)
      ensures n <= |ts| && st == Run(Start, ts[..n])
      ensures (ok <==> !st.Failed?) && (ok ==> Valid())
      ensures n == |ts| || !ok || prologState.handler == InternalSubset
      ensures ok && prologState.handler == InternalSubset <==> st.Accepted?
      ensures ok && prologState.handler == InternalSubset <==> n > 0 && GrammaticalDeclaration(ts[..n])
    {
      n, ok := 0, true;
      assert ts[..0] == [];
      while n < |ts| && ok && prologState.handler != InternalSubset
        invariant n <= |ts| && st == Run(Start, ts[..n]) && (ok <==> !st.Failed?) && (ok ==> Valid())
        invariant groupConnector == old(groupConnector) || fresh(groupConnector)
      {
        RunSnoc(ts, n);
        ok := Token(ts[n]);
        n := n + 1;
      }
      AcceptedDeclaration(ts[..n]);
    }

    /**
     * One declaration after another, on one machine: all are accepted exactly when each of them is in the grammar,
     * whatever level and connectors the earlier ones left behind.
     */
    method Declarations(ds: seq<seq<Token>>) returns (ok: bool)
      requires Valid() && st == Start
      modifies this, prologState, groupConnector
      ensures ok <==> forall k :: 0 <= k < |ds| ==> GrammaticalDeclaration(ds[k])
    {
      var k := 0;
      while k < |ds|
        invariant k <= |ds| && Valid() && (if k == 0 then st == Start else st.Accepted?)
        invariant groupConnector == old(groupConnector) || fresh(groupConnector)
        invariant forall j :: 0 <= j < k ==> GrammaticalDeclaration(ds[j])
      {
        if k > 0 {
          ElementName();
        }
        ok := WholeDeclaration(ds[k]);
        if !ok {
          return;
        }
        k := k + 1;
      }
      ok := true;
    }

    method WholeDeclaration(ts: seq<Token>) returns (ok: bool)
      requires Valid() && st == Start
      modifies this, prologState, groupConnector
      ensures groupConnector == old(groupConnector) || fresh(groupConnector)
      ensures ok <==> GrammaticalDeclaration(ts)
      ensures ok ==> Valid() && st.Accepted?
    {
      var n;
      n, ok := Declaration(ts);
      ok := ok && n == |ts| && prologState.handler == InternalSubset;
      AcceptedDeclaration(ts);
      assert ts[..|ts|] == ts;
      if st.Accepted? || st.Failed? {
        StoppedEarly(ts, n);
      }
    }
  }

  /** Nothing but an error can follow an accepted declaration, or an error. */
  lemma {:induction false} Settled(st: State, ts: seq<ContentModel.Token>)
    requires st.Accepted? || st.Failed?
    ensures Run(st, ts) == if ts == [] then st else Failed
  {
    if ts != [] {
      Settled(st, ts[..|ts| - 1]);
    }
  }

  lemma {:induction false} StoppedEarly(ts: seq<ContentModel.Token>, n: nat)
    requires n <= |ts| && (Run(Start, ts[..n]).Accepted? || Run(Start, ts[..n]).Failed?)
    ensures Run(Start, ts).Accepted? <==> n == |ts| && Run(Start, ts[..n]).Accepted?
  {
    assert ts[..n] + ts[n..] == ts;
    RunConcat(Start, ts[..n], ts[n..]);
    Settled(Run(Start, ts[..n]), ts[n..]);
  }

  lemma {:induction false} RunSnoc(ts: seq<ContentModel.Token>, n: nat)
    requires n < |ts|
    ensures Run(Start, ts[..n + 1]) == Step(Run(Start, ts[..n]), ts[n])
  {
    assert ts[..n + 1][..n] == ts[..n];
  }

  /** White space apart, ts is the text of a content model and its closing token. */
  ghost predicate GrammaticalDeclaration(ts: seq<Token>) {
    ts != [] && ts[|ts| - 1] == DeclClose
    && exists m :: GrammaticalModel(m) && Solid(ts) == ModelText(m) + [DeclClose]
  }

  lemma {:induction false} AcceptedDeclaration(ts: seq<Token>)
    ensures Run(Start, ts).Accepted? <==> GrammaticalDeclaration(ts)
  {
    if Run(Start, ts).Accepted? {
      AcceptsExactly(ts, Run(Start, ts).model);
    }
    if GrammaticalDeclaration(ts) {
      var m :| GrammaticalModel(m) && Solid(ts) == ModelText(m) + [DeclClose];
      AcceptsExactly(ts, m);
    }
  }
}
