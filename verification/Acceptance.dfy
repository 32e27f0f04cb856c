// Which token is accepted where, and why a parse fails.
module Acceptance {
  import opened Basics
  import opened Tokens
  import opened Documents
  import opened Machine
  import Laws

  predicate Typing(c: Config) { !c.annotation.NoAnnotation? }

  predicate AtTop(c: Config) { c.blocks == [] }

  /** Between two nodes. */
  predicate OutsideNodes(c: Config) { !Typing(c) && c.phase.Between? }

  predicate In(c: Config, states: set<NodeState>) { !Typing(c) && c.phase.Inside? && c.phase.st in states }

  /** A value, or the key of a property, may follow: not behind a child block, and not directly behind another value. */
  predicate ValueFits(c: Config) {
    || (In(c, {AtParams}) && !c.phase.seen)
    || (In(c, {AtArgProp}) && !c.ident.Valid())
    || In(c, {AtPostWS, AtPropValue})
  }

  /** The node may end in front of this terminator. */
  predicate EndFits(c: Config, id: TokenID) {
    || In(c, {AtNode, AtArgProp, AtPostWS})
    || (In(c, {AtParams}) && (if c.skipEntry then id.Newline? else !c.typ.Valid()))
    || (In(c, {AtEnd}) && !id.Semicolon?)
  }

  /** Kind by kind: where a token fits. */
  predicate Fits(c: Config, id: TokenID) {
    match id
    case Whitespace => true
    case MultiLineComment | SingleLineComment => Typing(c) || OutsideNodes(c) || In(c, {AtParams, AtPostWS, AtPropValue})
    case TokenComment => ((OutsideNodes(c) || In(c, {AtParams})) && !c.typ.Valid()) || In(c, {AtArgProp, AtPostWS})
    case Continuation => OutsideNodes(c) || In(c, {AtNode, AtParams, AtArgProp, AtPostWS, AtPropValue})
    case ParensOpen => OutsideNodes(c) || In(c, {AtParams, AtPostWS, AtPropValue})
    case ParensClose => c.annotation.Got?
    case Equals => In(c, {AtArgProp, AtPostWS}) && IsIdentifier(c.ident.id) && !c.typ.Valid()
    case BraceOpen => In(c, {AtNode, AtParams}) || (In(c, {AtArgProp, AtPostWS}) && !(c.ident.Valid() && c.phase.seen))
    case BraceClose => !AtTop(c) && ((OutsideNodes(c) && !c.skipNode) || In(c, {AtNode, AtArgProp, AtPostWS, AtEnd}))
    case Newline => c.cont || (OutsideNodes(c) && !(AtTop(c) && c.typ.Valid())) || EndFits(c, id)
    case Semicolon => (OutsideNodes(c) && !(AtTop(c) && c.typ.Valid())) || EndFits(c, id)
    case EOF => (OutsideNodes(c) && AtTop(c) && !c.typ.Valid() && !c.skipNode) || EndFits(c, id)
    case _ => (IsIdentifier(id) && (OutsideNodes(c) || c.annotation.Wanted?)) || (IsValue(id) && ValueFits(c))
  }

  /** What shows that a pending value is an argument. */
  predicate Settles(c: Config, id: TokenID) {
    || (In(c, {AtArgProp}) && c.ident.Valid() && (IsTerminator(id) || id.BraceOpen? || id.BraceClose?))
    || (In(c, {AtArgProp}) && id.TokenComment?)
    || (In(c, {AtPostWS}) && (IsValue(id) || id.ParensOpen?))
    || (In(c, {AtPostWS}) && c.ident.Valid()
        && (IsTerminator(id) || id.BraceOpen? || id.BraceClose? || id.TokenComment? || (id.SingleLineComment? && !c.cont)))
  }

  /** The tokens that must be decoded when t is read: a name, a value or key and value of a property, but nothing slashdashed. */
  function ToDecode(c: Config, t: Token): seq<Token> {
    if OutsideNodes(c) && IsIdentifier(t.id) then [t]
    else if c.skipEntry || (c.cont && t.id.Newline?) then []
    else if Settles(c, t.id) then [c.ident]
    else if In(c, {AtParams}) && t.id.SuffixedDecimal? then [t]
    else if In(c, {AtPropValue}) && IsValue(t.id) then [c.ident, t]
    else []
  }

  predicate Decodes(e: Env, tokens: seq<Token>) { forall k :: 0 <= k < |tokens| ==> e.decode(tokens[k]).Some? }

  lemma Decoding(e: Env, a: Token, b: Token)
    ensures Decodes(e, []) && (Decodes(e, [a]) <==> e.decode(a).Some?) && (Decodes(e, [a, b]) <==> e.decode(a).Some? && e.decode(b).Some?)
  {
    assert [a][0] == a && [a, b][0] == a && [a, b][1] == b;
  }

  /**
   * Main result: in every state, a token is accepted if and only if it fits there and what it shows to be a name, a value or a
   * key can be decoded.
   */
  lemma AcceptedExactly(e: Env, c: Config, t: Token)
    requires c.phase.Inside? && c.phase.st == AtPropValue ==> IsIdentifier(c.ident.id)
    ensures Step(e, c, t).Some? <==> Fits(c, t.id) && Decodes(e, ToDecode(c, t))
  {
    if c.cont && t.id.Newline? {
    } else if Typing(c) {
      TypingAccepts(e, c, t);
    } else if c.phase.Between? {
      OutsideAccepts(e, c, t);
    } else if c.phase.st in {AtNode, AtEnd, AtPropValue} {
      EdgeAccepts(e, c, t);
    } else if c.phase.st == AtParams {
      ParamsAccepts(e, c, t);
    } else if c.phase.st == AtArgProp {
      ArgPropAccepts(e, c, t);
    } else {
      PostWSAccepts(e, c, t);
    }
  }

  lemma TypingAccepts(e: Env, c: Config, t: Token)
    requires Typing(c) && !(c.cont && t.id.Newline?)
    ensures Step(e, c, t).Some? <==> Fits(c, t.id) && Decodes(e, ToDecode(c, t))
  {}

  lemma OutsideAccepts(e: Env, c: Config, t: Token)
    requires OutsideNodes(c) && !(c.cont && t.id.Newline?)
    ensures Step(e, c, t).Some? <==> Fits(c, t.id) && Decodes(e, ToDecode(c, t))
  {
    hide Decodes;
    Decoding(e, t, t);
  }

  lemma ShutAccepts(e: Env, c: Config, t: Token)
    requires c.phase.Inside?
    ensures EndNodeAndBlock(e, c, t).Some? <==> c.blocks != []
  {
    var o := c.phase.open;
    AttachKeepsDepth(c, o, Close(e, o, t.offset));
  }

  lemma AttachKeepsDepth(c: Config, o: OpenNode, node: Node)
    ensures |Attach(c, o, node).blocks| == |c.blocks|
  {}

  lemma CommitAccepts(e: Env, c: Config)
    requires c.phase.Inside?
    ensures Commit(e, c).Some? <==> c.skipEntry || e.decode(c.ident).Some?
    ensures Commit(e, c).Some? ==> Commit(e, c).value.phase.Inside? && Commit(e, c).value.blocks == c.blocks
  {}

  lemma EdgeAccepts(e: Env, c: Config, t: Token)
    requires In(c, {AtNode, AtEnd, AtPropValue}) && !(c.cont && t.id.Newline?)
    requires c.phase.st == AtPropValue ==> IsIdentifier(c.ident.id)
    ensures Step(e, c, t).Some? <==> Fits(c, t.id) && Decodes(e, ToDecode(c, t))
  {
    hide Decodes, EndNodeAndBlock, EndNode, OpenBlock;
    Decoding(e, c.ident, t);
    ShutAccepts(e, c.(cont := false), t);
  }

  lemma ParamsAccepts(e: Env, c: Config, t: Token)
    requires In(c, {AtParams}) && !(c.cont && t.id.Newline?)
    ensures Step(e, c, t).Some? <==> Fits(c, t.id) && Decodes(e, ToDecode(c, t))
  {
    hide Decodes;
    Decoding(e, t, t);
    Decoding(e, c.ident, t);
  }

  lemma LeaveAccepts(e: Env, c: Config, t: Token)
    requires c.phase.Inside?
    ensures CommitAndLeave(e, c, t).Some? <==>
      && (IsTerminator(t.id) || (t.id.BraceOpen? && !(c.ident.Valid() && c.phase.seen)) || (t.id.BraceClose? && c.blocks != []))
      && (c.ident.Valid() && !c.skipEntry ==> e.decode(c.ident).Some?)
  {
    hide Commit, EndNodeAndBlock, EndNode, OpenBlock;
    CommitAccepts(e, c);
    if CommitPending(e, c).Some? { ShutAccepts(e, CommitPending(e, c).value, t); }
  }

  /** What ends a node or opens its child block. */
  predicate Leaves(c: Config, id: TokenID) {
    IsTerminator(id) || (id.BraceOpen? && !(c.ident.Valid() && c.phase.Inside? && c.phase.seen)) || (id.BraceClose? && c.blocks != [])
  }

  lemma ArgPropFits(c: Config, id: TokenID)
    requires In(c, {AtArgProp}) && !(c.cont && id.Newline?)
    ensures Fits(c, id) <==> (
      || id.Whitespace? || id.Continuation? || id.TokenComment? || (id.Equals? && IsIdentifier(c.ident.id) && !c.typ.Valid())
      || (IsValue(id) && !c.ident.Valid()) || Leaves(c, id))
  {}

  lemma ArgPropAccepts(e: Env, c: Config, t: Token)
    requires In(c, {AtArgProp}) && !(c.cont && t.id.Newline?)
    ensures Step(e, c, t).Some? <==> Fits(c, t.id) && Decodes(e, ToDecode(c, t))
  {
    var c' := if t.id.Whitespace? || IsComment(t.id) then c else c.(cont := false);
    Decoding(e, c.ident, t);
    CommitAccepts(e, c');
    LeaveAccepts(e, c', t);
    ArgPropFits(c, t.id);
    hide Decodes, Commit, CommitAndLeave, Fits;
  }

  lemma PostWSFits(c: Config, id: TokenID)
    requires In(c, {AtPostWS}) && !(c.cont && id.Newline?)
    ensures Fits(c, id) <==> (
      || id.Whitespace? || IsComment(id) || id.Continuation? || id.TokenComment? || id.ParensOpen?
      || (id.Equals? && IsIdentifier(c.ident.id) && !c.typ.Valid()) || IsValue(id) || Leaves(c, id))
  {}

  lemma PostWSAccepts(e: Env, c: Config, t: Token)
    requires In(c, {AtPostWS}) && !(c.cont && t.id.Newline?)
    ensures Step(e, c, t).Some? <==> Fits(c, t.id) && Decodes(e, ToDecode(c, t))
  {
    var c' := if t.id.Whitespace? || IsComment(t.id) then c else c.(cont := false);
    Decoding(e, c.ident, t);
    CommitAccepts(e, c');
    LeaveAccepts(e, c', t);
    PostWSFits(c, t.id);
    hide Decodes, Commit, CommitAndLeave, Fits;
  }

  // ----- whole parses -----

  /** The k-th token is the first that is not accepted: it does not fit, or it makes something a value that cannot be decoded. */
  predicate StopsAt(e: Env, c: Config, tokens: seq<Token>, k: nat) {
    && k < |tokens| && Run(e, c, tokens[..k]).Some?
    && var m := Run(e, c, tokens[..k]).value;
    !(Fits(m, tokens[k].id) && Decodes(e, ToDecode(m, tokens[k])))
  }

  lemma ShapeIsEnough(e: Env, c: Config, t: Token)
    requires Laws.Shape(c)
    ensures Step(e, c, t).Some? <==> Fits(c, t.id) && Decodes(e, ToDecode(c, t))
  {
    AcceptedExactly(e, c, t);
  }

  /** Main result: a run fails exactly if it comes to a token that is not accepted. */
  lemma {:induction false} FailsExactly(e: Env, c: Config, tokens: seq<Token>)
    requires Laws.Shape(c)
    ensures Run(e, c, tokens).None? <==> exists k: nat :: StopsAt(e, c, tokens, k)
    decreases |tokens|
  {
    hide Step, Fits, ToDecode, Decodes, Laws.Shape;
    if tokens != [] {
      var t, rest := tokens[0], tokens[1..];
      ShapeIsEnough(e, c, t);
      assert tokens[..0] == [];
      assert StopsAt(e, c, tokens, 0) <==> Step(e, c, t).None?;
      if Step(e, c, t).Some? {
        var d := Step(e, c, t).value;
        Laws.StepShape(e, c, t, d);
        FailsExactly(e, d, rest);
        forall k: nat ensures k > 0 ==> (StopsAt(e, c, tokens, k) <==> StopsAt(e, d, rest, k - 1)) {
          if 0 < k < |tokens| {
            assert tokens[..k][1..] == rest[..k - 1];
            RunHead(e, c, tokens[..k], d);
          }
        }
        if exists k: nat :: StopsAt(e, d, rest, k) {
          var k: nat :| StopsAt(e, d, rest, k);
          assert StopsAt(e, c, tokens, k + 1);
        }
      }
    }
  }

  /**
   * A brace that closes a block is accepted behind whitespace only if the last entry of the node is an argument: behind a name
   * or a property it is refused.
   */
  lemma ShutBehindBlank(e: Env, c: Config, blank: Token, shut: Token)
    requires In(c, {AtNode, AtArgProp}) && c.blocks != [] && blank.id.Whitespace? && shut.id.BraceClose?
    ensures Step(e, c, shut).Some? <==> c.phase.st == AtNode || !c.ident.Valid() || c.skipEntry || e.decode(c.ident).Some?
    ensures Run(e, c, [blank, shut]).Some? <==> c.phase.st == AtArgProp && (!c.ident.Valid() || c.skipEntry || e.decode(c.ident).Some?)
  {
    var d := Goto(c, if c.phase.st == AtNode then AtParams else AtPostWS);
    assert Step(e, c, blank) == Some(d);
    assert [blank, shut][1..] == [shut];
    hide Step, Decodes;
    RunHead(e, c, [blank, shut], d);
    RunOne(e, d, shut);
    AcceptedExactly(e, c, shut);
    AcceptedExactly(e, d, shut);
    Decoding(e, c.ident, shut);
  }
}
