// Where the last node of the top level ended, and what may stand behind it.
module TopLevel {
  import opened Basics
  import opened Tokens
  import opened Machine
  import opened Effects

  /** No node is open at any level. */
  predicate Resting(c: Config) { c.phase.Between? && c.blocks == [] }

  /** At rest from token to token. */
  predicate Quiet(e: Env, c: Config, tokens: seq<Token>)
    decreases |tokens|
  {
    Resting(c) && (tokens == [] || (Step(e, c, tokens[0]).Some? && Quiet(e, Step(e, c, tokens[0]).value, tokens[1..])))
  }

  /**
   * A run that comes to rest has been so since its start, or since the token, number k - 1, that ended the last node.
   */
  lemma {:induction false} LastEnd(e: Env, c: Config, tokens: seq<Token>, m: Config) returns (k: nat, b: Config, a: Config)
    requires Run(e, c, tokens) == Some(m) && Resting(m)
    ensures k <= |tokens| && Run(e, c, tokens[..k]) == Some(a) && Quiet(e, a, tokens[k..])
    ensures k == 0 ==> Resting(c)
    ensures k > 0 ==> Run(e, c, tokens[..k - 1]) == Some(b) && !Resting(b) && Step(e, b, tokens[k - 1]) == Some(a)
    decreases |tokens|
  {
    hide Step, Resting;
    if tokens == [] {
      k, b, a := 0, c, c;
    } else {
      var d := Step(e, c, tokens[0]).value;
      k, b, a := LastEnd(e, d, tokens[1..], m);
      if k > 0 || !Resting(c) {
        if k == 0 { b := c; }
        k := k + 1;
        assert tokens[..k][1..] == tokens[1..][..k - 1] && tokens[k..] == tokens[1..][k - 1..];
        if k > 1 { assert tokens[..k - 1][1..] == tokens[1..][..k - 2]; }
      } else {
        a := c;
        assert tokens[1..][0..] == tokens[1..] && tokens[0..] == tokens;
      }
    }
  }

  lemma EndKeeps(e: Env, c: Config, end: nat)
    requires c.phase.Inside?
    ensures var d := EndNode(e, c, end);
      && d.phase.Between? && d.lastEnd == end && |d.blocks| == |c.blocks| && d.cont == c.cont && d.annotation == c.annotation
      && d.skipEntry == c.skipEntry && d.typ == c.typ && d.ident == c.ident
  {}

  /** Only a terminator ends a node of the top level, and it leaves no annotation and no continuation. */
  lemma TerminatorEnds(e: Env, b: Config, t: Token, a: Config)
    requires Step(e, b, t) == Some(a) && !Resting(b) && Resting(a)
    ensures b.phase.Inside? && IsTerminator(t.id) && a.lastEnd == TokenEnd(e, t) && !a.cont && a.annotation.NoAnnotation?
  {
    hide Step;
    var mid, eff := StepEffect(e, b, t, a);
    assert SkeletonOf(b.phase) == SkeletonOf(mid.phase);
    match eff
    case Ended =>
      EndKeeps(e, mid, TokenEnd(e, t));
      TerminatorClears(e, b, t, a);
    case Local =>
    case Started =>
    case Opened =>
    case Closed =>
    case EndedAndClosed =>
  }

  lemma TerminatorClears(e: Env, b: Config, t: Token, a: Config)
    requires Step(e, b, t) == Some(a) && b.phase.Inside? && a.phase.Between? && IsTerminator(t.id)
    ensures !a.cont && a.annotation.NoAnnotation?
  {
    hide CommitAndLeave, EndNode, Commit, NextEntry, BeforeComment;
    var c := b.(cont := false);
    EndKeeps(e, c, TokenEnd(e, t));
    LeavingClears(e, c, t);
  }

  lemma LeavingClears(e: Env, c: Config, t: Token)
    requires c.phase.Inside? && !c.cont && c.annotation.NoAnnotation? && IsTerminator(t.id)
    ensures CommitAndLeave(e, c, t).Some? ==> !CommitAndLeave(e, c, t).value.cont && CommitAndLeave(e, c, t).value.annotation.NoAnnotation?
  {
    hide EndNode;
    if CommitPending(e, c).Some? { EndKeeps(e, CommitPending(e, c).value, TokenEnd(e, t)); }
  }

  // ----- behind the last node -----

  /** Something that only a name resolves, or that the end of the input refuses. */
  predicate Unresolved(c: Config) { c.annotation.Wanted? || c.typ.Valid() || c.skipNode }

  lemma StaysUnresolved(e: Env, c: Config, t: Token, d: Config)
    requires Resting(c) && Unresolved(c) && t.Valid() && Step(e, c, t) == Some(d) && Resting(d)
    ensures Unresolved(d)
  {}

  lemma UnresolvedIsRefused(e: Env, c: Config)
    requires Resting(c) && Unresolved(c)
    ensures Step(e, c, EOF_TOKEN).None?
  {}

  lemma {:induction false} QuietResolves(e: Env, c: Config, tokens: seq<Token>, m: Config)
    requires Quiet(e, c, tokens) && Run(e, c, tokens) == Some(m) && Step(e, m, EOF_TOKEN).Some?
    requires forall k :: 0 <= k < |tokens| ==> tokens[k].Valid()
    ensures !Unresolved(c)
    decreases |tokens|
  {
    hide Step, Unresolved;
    if Unresolved(c) {
      if tokens == [] {
        UnresolvedIsRefused(e, c);
      } else {
        var d := Step(e, c, tokens[0]).value;
        QuietResolves(e, d, tokens[1..], m);
        assert Resting(d);
        StaysUnresolved(e, c, tokens[0], d);
      }
    }
  }

  /** The same place in another document, whether or not a slashdash is left over. */
  predicate Alike(c: Config, x: Config) {
    x == c.(doc := x.doc, segments := x.segments, lastEnd := x.lastEnd, skipEntry := x.skipEntry)
  }

  /** What is read at rest, to stay at rest, changes nothing and does not depend on the nodes before it. */
  lemma QuietStep(e: Env, c: Config, t: Token, d: Config, f: Env, x: Config, u: Token)
    requires Resting(c) && c.annotation.NoAnnotation? && Step(e, c, t) == Some(d) && Resting(d) && !Unresolved(d) && u.id == t.id
    requires Alike(c, x)
    ensures d == c.(cont := d.cont) && Step(f, x, u) == Some(x.(cont := d.cont))
  {}

  lemma {:induction false} QuietRun(e: Env, c: Config, tokens: seq<Token>, m: Config, f: Env, x: Config, us: seq<Token>)
    requires Quiet(e, c, tokens) && Run(e, c, tokens) == Some(m) && Step(e, m, EOF_TOKEN).Some? && c.annotation.NoAnnotation?
    requires |us| == |tokens| && forall k :: 0 <= k < |tokens| ==> tokens[k].Valid() && us[k].id == tokens[k].id
    requires Alike(c, x)
    ensures m == c.(cont := m.cont) && Run(f, x, us) == Some(x.(cont := m.cont))
    decreases |tokens|
  {
    hide Step, Unresolved, Resting;
    if tokens != [] {
      var d := Step(e, c, tokens[0]).value;
      QuietResolves(e, d, tokens[1..], m);
      assert Quiet(e, d, tokens[1..]);
      QuietStep(e, c, tokens[0], d, f, x, us[0]);
      QuietRun(e, d, tokens[1..], m, f, x.(cont := d.cont), us[1..]);
    }
  }

  lemma EofRests(f: Env, c: Config)
    requires Resting(c) && c.annotation.NoAnnotation? && !Unresolved(c)
    ensures Step(f, c, EOF_TOKEN) == Some(c.(cont := false))
  {}

  /** In a node of the top level, behind an annotation that waits for its value. */
  predicate Annotated(c: Config) {
    && c.phase.Inside? && c.phase.st.AtParams? && c.blocks == [] && c.typ.Valid()
    && c.annotation.NoAnnotation? && !c.cont && !c.skipEntry
  }

  /**
   * An annotation whose value is missing becomes the annotation of the next node, exactly if a single-line comment stands
   * between it and the end of the line; otherwise the end of the line refuses it.
   */
  lemma AnnotationMovesOn(e: Env, c: Config, comment: Token, newline: Token, name: Token)
    requires Annotated(c) && comment.id.SingleLineComment? && newline.id.Newline? && IsIdentifier(name.id) && e.decode(name).Some?
    ensures Run(e, c, [newline]).None?
    ensures var d := Run(e, c, [comment, newline, name]);
      d.Some? && d.value.phase.Inside? && d.value.phase.open.node.typ == c.typ.data && d.value.phase.open.start == newline.offset + |newline.data|
  {
    var c1 := Goto(c, AtEnd);
    var c2 := EndNode(e, c1, newline.offset + |newline.data|);
    var all := [comment, newline, name];
    assert Step(e, c, comment) == Some(c1) && Step(e, c1, newline) == Some(c2) && Step(e, c, newline).None?;
    EndKeeps(e, c1, newline.offset + |newline.data|);
    assert all[1..] == [newline, name] && all[1..][1..] == [name];
    StartsAnnotated(e, c2, name);
    hide Step, EndNode;
    RunOne(e, c, newline);
    RunHead(e, c, all, c1);
    RunHead(e, c1, all[1..], c2);
    RunOne(e, c2, name);
  }

  lemma StartsAnnotated(e: Env, c: Config, name: Token)
    requires Resting(c) && c.typ.Valid() && c.annotation.NoAnnotation? && IsIdentifier(name.id) && e.decode(name).Some?
    ensures var d := Step(e, c, name);
      d.Some? && d.value.phase.Inside? && d.value.phase.open.node.typ == c.typ.data && d.value.phase.open.start == c.lastEnd
  {}

  // ----- pending tokens -----

  /** A token that is not pending is the cleared one. */
  predicate Cleared(c: Config) {
    (c.ident.Valid() || c.ident == NO_TOKEN) && (c.typ.Valid() || c.typ == NO_TOKEN)
  }

  lemma EndCleared(e: Env, c: Config, end: nat)
    requires Cleared(c) && c.phase.Inside?
    ensures Cleared(EndNode(e, c, end))
  {
    EndKeeps(e, c, end);
  }

  lemma StructureCleared(e: Env, c: Config, t: Token)
    requires Cleared(c) && c.phase.Inside?
    ensures Cleared(OpenBlock(c, t)) && (EndNodeAndBlock(e, c, t).Some? ==> Cleared(EndNodeAndBlock(e, c, t).value))
  {
    EndCleared(e, c, t.offset);
  }

  lemma CommitCleared(e: Env, c: Config)
    requires Cleared(c) && c.phase.Inside?
    ensures Commit(e, c).Some? ==> Cleared(Commit(e, c).value) && Commit(e, c).value.phase.Inside?
    ensures CommitPending(e, c).Some? ==> Cleared(CommitPending(e, c).value) && CommitPending(e, c).value.phase.Inside?
  {}

  lemma LeaveCleared(e: Env, c: Config, t: Token)
    requires Cleared(c) && c.phase.Inside?
    ensures CommitAndLeave(e, c, t).Some? ==> Cleared(CommitAndLeave(e, c, t).value)
  {
    hide Cleared, EndNode, OpenBlock, EndNodeAndBlock, CommitPending;
    CommitCleared(e, c);
    if CommitPending(e, c).Some? {
      EndCleared(e, CommitPending(e, c).value, TokenEnd(e, t));
      StructureCleared(e, CommitPending(e, c).value, t);
    }
  }

  lemma NextCleared(e: Env, c: Config, t: Token)
    requires Cleared(c) && c.phase.Inside? && t.Valid()
    ensures NextEntry(e, c, t).Some? ==> Cleared(NextEntry(e, c, t).value)
    ensures BeforeComment(e, c, t).Some? ==> Cleared(BeforeComment(e, c, t).value)
  {
    hide Commit, CommitPending;
    CommitCleared(e, c);
  }

  lemma FirstCleared(e: Env, c: Config, t: Token)
    requires Cleared(c) && c.phase.Inside? && t.Valid()
    ensures FirstEntry(e, c, t).Some? ==> Cleared(FirstEntry(e, c, t).value)
  {
    hide Commit;
    CommitCleared(e, c.(typ := NO_TOKEN, ident := t));
  }

  lemma PropertyCleared(e: Env, c: Config, t: Token)
    requires Cleared(c) && c.phase.Inside?
    ensures PropertyValue(e, c, t).Some? ==> Cleared(PropertyValue(e, c, t).value)
  {}

  lemma NodeCleared(e: Env, c: Config, t: Token)
    requires Cleared(c) && c.phase.Inside? && t.Valid()
    ensures InNode(e, c, t).Some? ==> Cleared(InNode(e, c, t).value)
    ensures InEnd(e, c, t).Some? ==> Cleared(InEnd(e, c, t).value)
  {
    hide EndNode, OpenBlock, EndNodeAndBlock;
    EndCleared(e, c, TokenEnd(e, t));
    StructureCleared(e, c, t);
  }

  lemma EntriesCleared(e: Env, c: Config, t: Token)
    requires Cleared(c) && c.phase.Inside? && t.Valid()
    ensures InParams(e, c, t).Some? ==> Cleared(InParams(e, c, t).value)
    ensures InPropValue(e, c, t).Some? ==> Cleared(InPropValue(e, c, t).value)
  {
    hide EndNode, OpenBlock, FirstEntry, PropertyValue;
    EndCleared(e, c, TokenEnd(e, t));
    StructureCleared(e, c, t);
    FirstCleared(e, c, t);
    PropertyCleared(e, c, t);
  }

  lemma ArgPropCleared(e: Env, c: Config, t: Token)
    requires Cleared(c) && c.phase.Inside? && t.Valid()
    ensures InArgProp(e, c, t).Some? ==> Cleared(InArgProp(e, c, t).value)
  {
    hide CommitAndLeave, Commit;
    CommitCleared(e, c);
    LeaveCleared(e, c, t);
  }

  lemma PostWSCleared(e: Env, c: Config, t: Token)
    requires Cleared(c) && c.phase.Inside? && t.Valid()
    ensures InPostWS(e, c, t).Some? ==> Cleared(InPostWS(e, c, t).value)
  {
    hide CommitAndLeave, NextEntry, BeforeComment;
    LeaveCleared(e, c, t);
    NextCleared(e, c, t);
  }

  lemma HandleCleared(e: Env, c: Config, t: Token, d: Config)
    requires Cleared(c) && t.Valid() && Handle(e, c, t) == Some(d)
    ensures Cleared(d)
  {
    hide InNode, InEnd, InParams, InPropValue, InArgProp, InPostWS;
    if c.phase.Inside? {
      NodeCleared(e, c, t);
      EntriesCleared(e, c, t);
      ArgPropCleared(e, c, t);
      PostWSCleared(e, c, t);
    }
  }

  lemma {:induction false} RunCleared(e: Env, c: Config, tokens: seq<Token>, d: Config)
    requires Cleared(c) && Run(e, c, tokens) == Some(d) && forall k :: 0 <= k < |tokens| ==> tokens[k].Valid()
    ensures Cleared(d)
    decreases |tokens|
  {
    hide Handle;
    if tokens != [] {
      var t := tokens[0];
      var m := Step(e, c, t).value;
      if !(c.cont && t.id.Newline?) {
        HandleCleared(e, if t.id.Whitespace? || IsComment(t.id) then c else c.(cont := false), t, m);
      }
      RunCleared(e, m, tokens[1..], d);
    }
  }

  // ----- how many nodes there are -----

  lemma AtMostOneMore(c: Config)
    ensures |Visible(c)| <= |c.doc| + 1 && (Resting(c) ==> Visible(c) == c.doc)
  {}

  /** Only a terminator adds a node to the top level, and it adds one. */
  lemma StepAddsOne(e: Env, c: Config, t: Token, d: Config)
    requires Step(e, c, t) == Some(d)
    ensures |c.doc| <= |d.doc| <= |c.doc| + 1
    ensures |d.doc| > |c.doc| ==> IsTerminator(t.id) && Resting(d)
  {
    hide Step;
    var mid, eff := StepEffect(e, c, t, d);
    match eff
    case Ended => EndAddsOne(e, mid, TokenEnd(e, t));
    case EndedAndClosed => EndAddsOne(e, mid, t.offset);
    case Local =>
    case Started =>
    case Opened =>
    case Closed =>
  }

  lemma EndAddsOne(e: Env, c: Config, end: nat)
    requires c.phase.Inside?
    ensures var d := EndNode(e, c, end); |c.doc| <= |d.doc| <= |c.doc| + 1 && (|d.doc| > |c.doc| ==> Resting(d)) && |d.blocks| == |c.blocks|
    ensures c.blocks != [] ==> EndNode(e, c, end).doc == c.doc
  {}

  lemma {:induction false} RunKeepsNodes(e: Env, c: Config, tokens: seq<Token>, d: Config)
    requires Run(e, c, tokens) == Some(d)
    ensures |c.doc| <= |d.doc| && ((forall k :: 0 <= k < |tokens| ==> !IsTerminator(tokens[k].id)) ==> |d.doc| == |c.doc|)
    decreases |tokens|
  {
    hide Step, Resting;
    if tokens != [] {
      var m := Step(e, c, tokens[0]).value;
      StepAddsOne(e, c, tokens[0], m);
      RunKeepsNodes(e, m, tokens[1..], d);
    }
  }

  lemma RestingAtEof(e: Env, c: Config, d: Config)
    requires Resting(c) && Step(e, c, EOF_TOKEN) == Some(d)
    ensures d.doc == c.doc && Resting(d)
  {}

  /** Tokens of which none but possibly the last is a terminator show at most one node more. */
  lemma LineShowsOne(e: Env, c: Config, tokens: seq<Token>, d: Config)
    requires Run(e, c, tokens + [EOF_TOKEN]) == Some(d)
    requires forall k :: 0 <= k < |tokens| - 1 ==> !IsTerminator(tokens[k].id)
    ensures |Visible(d)| <= |c.doc| + 1
  {
    hide Step, Visible;
    RunAppend(e, c, tokens, [EOF_TOKEN]);
    var m := Run(e, c, tokens).value;
    RunOne(e, m, EOF_TOKEN);
    if tokens != [] {
      var front := tokens[..|tokens| - 1];
      assert front + [tokens[|tokens| - 1]] == tokens;
      RunAppend(e, c, front, [tokens[|tokens| - 1]]);
      var m0 := Run(e, c, front).value;
      RunOne(e, m0, tokens[|tokens| - 1]);
      RunKeepsNodes(e, c, front, m0);
      StepAddsOne(e, m0, tokens[|tokens| - 1], m);
    }
    StepAddsOne(e, m, EOF_TOKEN, d);
    if Resting(m) { RestingAtEof(e, m, d); }
    AtMostOneMore(d);
  }
}
