// Laws of whole parser runs: the shape of every reachable configuration, matched blocks,
// slashdashes that leave no trace, and line continuations that mean nothing.
module Laws {
  import opened Basics
  import opened Tokens
  import opened Documents
  import opened Machine
  import opened Effects

  // ----- shape -----

  predicate Returnable(st: NodeState) {
    st == AtNode || st == AtParams || st == AtArgProp || st == AtPostWS
  }

  /** Slashdashed blocks are the innermost ones, and every node opened inside one is detached. */
  ghost predicate BlocksShape(blocks: seq<Block>) {
    && (forall i :: 0 <= i < |blocks| ==> Returnable(blocks[i].ret))
    && (forall i :: 0 <= i < |blocks| - 1 ==> blocks[i].dropped ==> blocks[i + 1].dropped && blocks[i + 1].owner.ignored)
  }

  /** Annotations occur only where a name or a value may follow; an identifier is pending only in the three
      states that can consume it; a property value always has an identifier for a key. */
  ghost predicate FlagsShape(c: Config) {
    && (!c.annotation.NoAnnotation? && c.phase.Inside? ==> c.phase.st == AtParams || c.phase.st == AtPropValue)
    && (c.ident.Valid() ==> c.phase.Inside? && (c.phase.st == AtArgProp || c.phase.st == AtPostWS || c.phase.st == AtPropValue))
    && (c.phase.Inside? && c.phase.st == AtPropValue ==> IsIdentifier(c.ident.id))
  }

  ghost predicate Shape(c: Config) {
    && BlocksShape(c.blocks)
    && FlagsShape(c)
    && (InDropped(c.blocks) && c.phase.Inside? ==> c.phase.open.ignored)
  }

  lemma CommitFlags(e: Env, c: Config)
    requires c.phase.Inside? && FlagsShape(c) && c.phase.st != AtPropValue
    ensures Commit(e, c).Some? ==> FlagsShape(Commit(e, c).value) && !Commit(e, c).value.ident.Valid()
    ensures CommitPending(e, c).Some? ==> FlagsShape(CommitPending(e, c).value) && !CommitPending(e, c).value.ident.Valid()
    ensures Commit(e, c).Some? ==> Commit(e, c).value.annotation == c.annotation && Commit(e, c).value.phase.Inside? && Commit(e, c).value.phase.st == c.phase.st
    ensures CommitPending(e, c).Some? ==> CommitPending(e, c).value.annotation == c.annotation && CommitPending(e, c).value.phase.Inside? && CommitPending(e, c).value.phase.st == c.phase.st
  {}

  lemma EndFlags(e: Env, c: Config, end: nat)
    requires c.phase.Inside? && c.annotation.NoAnnotation? && !c.ident.Valid()
    ensures FlagsShape(EndNode(e, c, end))
    ensures var d := EndNode(e, c, end); d.blocks != [] ==> BlocksShape(c.blocks) ==> FlagsShape(CloseBlock(d))
  {
    var d := EndNode(e, c, end);
    if d.blocks != [] && BlocksShape(c.blocks) {
      assert d.blocks[|d.blocks| - 1].ret == c.blocks[|c.blocks| - 1].ret;
    }
  }

  lemma LeaveFlags(e: Env, c: Config, t: Token, d: Config)
    requires c.phase.Inside? && Shape(c) && c.annotation.NoAnnotation? && c.phase.st != AtPropValue
    requires CommitAndLeave(e, c, t) == Some(d)
    ensures FlagsShape(d)
  {
    hide CommitPending, EndNode, InDropped;
    CommitFlags(e, c);
    CommitKeepsStructure(e, c);
    var m := CommitPending(e, c).value;
    EndFlags(e, m, TokenEnd(e, t));
    EndFlags(e, m, t.offset);
  }

  lemma EndBoth(e: Env, c: Config, t: Token)
    requires c.phase.Inside? && Shape(c) && c.annotation.NoAnnotation? && !c.ident.Valid()
    ensures EndNodeAndBlock(e, c, t).Some? ==> FlagsShape(EndNodeAndBlock(e, c, t).value)
  {
    EndFlags(e, c, t.offset);
  }

  lemma ArgPropFlags(e: Env, c: Config, t: Token, d: Config)
    requires Shape(c) && c.annotation.NoAnnotation? && c.phase.Inside? && c.phase.st == AtArgProp
    requires InArgProp(e, c, t) == Some(d)
    ensures FlagsShape(d)
  {
    hide Commit, CommitPending, CommitAndLeave;
    CommitFlags(e, c);
    if CommitAndLeave(e, c, t) == Some(d) {
      LeaveFlags(e, c, t, d);
    }
  }

  lemma PostWSFlags(e: Env, c: Config, t: Token, d: Config)
    requires Shape(c) && c.annotation.NoAnnotation? && c.phase.Inside? && c.phase.st == AtPostWS
    requires InPostWS(e, c, t) == Some(d)
    ensures FlagsShape(d)
  {
    hide Commit, CommitPending, CommitAndLeave;
    CommitFlags(e, c);
    if CommitAndLeave(e, c, t) == Some(d) {
      LeaveFlags(e, c, t, d);
    }
  }

  lemma ParamsFlags(e: Env, c: Config, t: Token, d: Config)
    requires Shape(c) && c.annotation.NoAnnotation? && c.phase.Inside? && c.phase.st == AtParams
    requires InParams(e, c, t) == Some(d)
    ensures FlagsShape(d)
  {
    hide EndNode, BlocksShape, InDropped;
    EndFlags(e, c, TokenEnd(e, t));
  }

  lemma NodeFlags(e: Env, c: Config, t: Token, d: Config)
    requires Shape(c) && c.annotation.NoAnnotation? && c.phase.Inside? && Returnable(c.phase.st) && !c.ident.Valid()
    requires InNode(e, c, t) == Some(d)
    ensures FlagsShape(d)
  {
    hide EndNode, EndNodeAndBlock;
    EndFlags(e, c, TokenEnd(e, t));
    EndBoth(e, c, t);
  }

  lemma EndStateFlags(e: Env, c: Config, t: Token, d: Config)
    requires Shape(c) && c.annotation.NoAnnotation? && c.phase.Inside? && c.phase.st == AtEnd && InEnd(e, c, t) == Some(d)
    ensures FlagsShape(d)
  {
    hide EndNode, EndNodeAndBlock;
    EndFlags(e, c, TokenEnd(e, t));
    EndBoth(e, c, t);
  }

  lemma HandleFlags(e: Env, c: Config, t: Token, d: Config)
    requires Shape(c) && Handle(e, c, t) == Some(d)
    ensures FlagsShape(d)
  {
    if c.annotation.NoAnnotation? && c.phase.Inside? {
      hide InNode, InParams, InEnd, InArgProp, InPostWS;
      match c.phase.st
      case AtNode => NodeFlags(e, c, t, d);
      case AtParams => ParamsFlags(e, c, t, d);
      case AtEnd => EndStateFlags(e, c, t, d);
      case AtArgProp => ArgPropFlags(e, c, t, d);
      case AtPostWS => PostWSFlags(e, c, t, d);
      case AtPropValue =>
    }
  }

  lemma EffectBlocks(e: Env, c: Config, t: Token, mid: Config, eff: Effect, d: Config)
    requires Shape(c) && Has(e, c, t, mid, eff, d)
    requires eff.Opened? ==> Returnable(mid.phase.st)
    ensures BlocksShape(d.blocks)
    ensures InDropped(d.blocks) && d.phase.Inside? ==> d.phase.open.ignored
  {
    match eff
    case Local => assert SkeletonOf(c.phase) == SkeletonOf(d.phase);
    case Started =>
    case Ended => AttachShape(mid, mid.phase.open, Close(e, mid.phase.open, TokenEnd(e, t)));
    case Opened => assert SkeletonOf(c.phase) == SkeletonOf(mid.phase);
    case Closed => ClosedShape(mid.blocks);
    case EndedAndClosed =>
      AttachShape(mid, mid.phase.open, Close(e, mid.phase.open, t.offset));
      ClosedShape(EndNode(e, mid, t.offset).blocks);
  }

  lemma AttachShape(c: Config, o: OpenNode, node: Node)
    requires BlocksShape(c.blocks)
    ensures BlocksShape(Attach(c, o, node).blocks)
  {}

  lemma ClosedShape(blocks: seq<Block>)
    requires BlocksShape(blocks) && blocks != []
    ensures BlocksShape(blocks[..|blocks| - 1])
    ensures InDropped(blocks[..|blocks| - 1]) ==> blocks[|blocks| - 1].owner.ignored
  {
    if |blocks| > 1 {
      assert blocks[|blocks| - 2].dropped ==> blocks[|blocks| - 2 + 1].owner.ignored;
    }
  }

  lemma OpenedIsReturnable(e: Env, c: Config, t: Token)
    requires Shape(c) && t.id.BraceOpen? && c.phase.Inside? && Step(e, c, t).Some?
    ensures Returnable(c.phase.st)
  {}

  /** Main result: the shape is kept by every step ... */
  lemma StepShape(e: Env, c: Config, t: Token, d: Config)
    requires Shape(c) && Step(e, c, t) == Some(d)
    ensures Shape(d)
  {
    hide Handle;
    if !(c.cont && t.id.Newline?) {
      HandleFlags(e, if t.id.Whitespace? || IsComment(t.id) then c else c.(cont := false), t, d);
    }
    var mid, eff := StepEffect(e, c, t, d);
    if eff.Opened? {
      OpenedIsReturnable(e, c, t);
    }
    EffectBlocks(e, c, t, mid, eff, d);
  }

  /** ... and so holds in every configuration a run can reach. */
  lemma {:induction false} RunShape(e: Env, c: Config, tokens: seq<Token>, d: Config)
    requires Shape(c) && Run(e, c, tokens) == Some(d)
    ensures Shape(d)
    decreases |tokens|
  {
    if tokens != [] {
      var m := Step(e, c, tokens[0]).value;
      StepShape(e, c, tokens[0], m);
      RunShape(e, m, tokens[1..], d);
    }
  }

  // ----- slashdashed nodes and blocks leave no trace -----

  /** Something on the way from the document to the innermost position is slashdashed. */
  ghost predicate Hidden(c: Config) {
    || InDropped(c.blocks)
    || HiddenOwner(c.blocks)
    || (c.phase.Inside? && c.phase.open.ignored)
  }

  ghost predicate HiddenOwner(blocks: seq<Block>) {
    exists i :: 0 <= i < |blocks| && blocks[i].owner.ignored
  }

  lemma {:induction false} SpineCut(blocks: seq<Block>, a: Option<Node>, b: Option<Node>)
    requires HiddenOwner(blocks)
    ensures Spine(blocks, a) == Spine(blocks, b)
    decreases |blocks|
  {
    var k := |blocks| - 1;
    var o := blocks[k].owner;
    if !o.ignored {
      var i :| 0 <= i < |blocks| && blocks[i].owner.ignored;
      assert blocks[..k][i].owner.ignored;
      SpineCut(blocks[..k],
               Some(if a.Some? then o.node.(children := o.node.children + [a.value]) else o.node),
               Some(if b.Some? then o.node.(children := o.node.children + [b.value]) else o.node));
    }
  }

  /** Where the innermost node stands in the tree. */
  ghost function Inner(c: Config): Option<Node> {
    if c.phase.Inside? && !c.phase.open.ignored then Some(c.phase.open.node) else None
  }

  /** Opening and closing a block changes what is innermost, not what is visible. */
  lemma BraceKeepsVisible(c: Config, t: Token)
    ensures c.phase.Inside? ==> Visible(OpenBlock(c, t)) == Visible(c)
    ensures c.phase.Between? && c.blocks != [] ==> Visible(CloseBlock(c)) == Visible(c)
  {
    if c.phase.Inside? {
      var d := OpenBlock(c, t);
      assert d.blocks[..|d.blocks| - 1] == c.blocks;
    }
  }

  lemma AttachHidden(c: Config, o: OpenNode, node: Node)
    requires o.ignored || HiddenOwner(c.blocks)
    ensures var d := Attach(c, o, node); d.doc == c.doc && Spine(d.blocks, None) == Spine(c.blocks, if o.ignored then None else Some(o.node))
  {
    if !o.ignored {
      var k := |c.blocks| - 1;
      var d := Attach(c, o, node);
      assert d.blocks[..k] == c.blocks[..k];
      var i :| 0 <= i < |c.blocks| && c.blocks[i].owner.ignored;
      if !c.blocks[k].owner.ignored {
        assert c.blocks[..k][i].owner.ignored;
        SpineCut(c.blocks[..k], Some(d.blocks[k].owner.node),
                 Some(c.blocks[k].owner.node.(children := c.blocks[k].owner.node.children + [o.node])));
      }
    }
  }

  lemma EndKeepsVisible(e: Env, c: Config, end: nat)
    requires c.phase.Inside? && Hidden(c) && (InDropped(c.blocks) ==> c.phase.open.ignored)
    ensures Visible(EndNode(e, c, end)) == Visible(c)
  {
    AttachHidden(c, c.phase.open, Close(e, c.phase.open, end));
  }

  /** Main result: while something around the current position is slashdashed, no token changes the
      document, and neither does the token that ends the slashdashed node or block. */
  lemma SlashdashLeavesNoTrace(e: Env, c: Config, t: Token, d: Config)
    requires Shape(c) && Hidden(c) && Step(e, c, t) == Some(d)
    ensures Visible(d) == Visible(c)
  {
    hide Step, Handle;
    var mid, eff := StepEffect(e, c, t, d);
    assert SkeletonOf(c.phase) == SkeletonOf(mid.phase);
    if HiddenOwner(c.blocks) {
      SpineCut(c.blocks, Inner(c), Inner(mid));
      SpineCut(c.blocks, Inner(mid), Inner(d));
    }
    assert Visible(mid) == Visible(c);
    match eff
    case Local =>
    case Started =>
    case Ended => EndKeepsVisible(e, mid, TokenEnd(e, t));
    case Opened => BraceKeepsVisible(mid, t);
    case Closed => BraceKeepsVisible(mid, t);
    case EndedAndClosed =>
      EndKeepsVisible(e, mid, t.offset);
      BraceKeepsVisible(EndNode(e, mid, t.offset), t);
  }

  /** Every configuration of the run except possibly the last is hidden. */
  ghost predicate HiddenRun(e: Env, c: Config, tokens: seq<Token>)
    decreases |tokens|
  {
    tokens != [] ==> Hidden(c) && Step(e, c, tokens[0]).Some? && HiddenRun(e, Step(e, c, tokens[0]).value, tokens[1..])
  }

  lemma {:induction false} HiddenRunLeavesNoTrace(e: Env, c: Config, tokens: seq<Token>, d: Config)
    requires Shape(c) && HiddenRun(e, c, tokens) && Run(e, c, tokens) == Some(d)
    ensures Visible(d) == Visible(c)
    decreases |tokens|
  {
    if tokens != [] {
      var m := Step(e, c, tokens[0]).value;
      SlashdashLeavesNoTrace(e, c, tokens[0], m);
      StepShape(e, c, tokens[0], m);
      HiddenRunLeavesNoTrace(e, m, tokens[1..], d);
    }
  }

  // ----- matched blocks -----

  /** What of an open block never changes while deeper tokens are read. */
  datatype Frozen = Frozen(ret: NodeState, outer: seq<Segment>, savedEnd: nat, base: nat, dropped: bool, ignored: bool, start: nat)

  ghost function FrozenPart(b: Block): Frozen {
    Frozen(b.ret, b.outer, b.savedEnd, b.base, b.dropped, b.owner.ignored, b.owner.start)
  }

  ghost predicate SameFrozen(a: seq<Block>, b: seq<Block>, n: nat) {
    n <= |a| && n <= |b| && forall i :: 0 <= i < n ==> FrozenPart(a[i]) == FrozenPart(b[i])
  }

  lemma StepFrozen(e: Env, c: Config, t: Token, d: Config, n: nat)
    requires Step(e, c, t) == Some(d) && n <= |c.blocks| && n <= |d.blocks|
    ensures SameFrozen(c.blocks, d.blocks, n)
  {
    hide Step;
    var mid, eff := StepEffect(e, c, t, d);
  }

  /** The run never closes one of the n outermost blocks. */
  ghost predicate StaysInside(e: Env, c: Config, tokens: seq<Token>, n: nat)
    decreases |tokens|
  {
    && n <= |c.blocks|
    && (tokens != [] ==> Step(e, c, tokens[0]).Some? && StaysInside(e, Step(e, c, tokens[0]).value, tokens[1..], n))
  }

  lemma {:induction false} RunFrozen(e: Env, c: Config, tokens: seq<Token>, d: Config, n: nat)
    requires StaysInside(e, c, tokens, n) && Run(e, c, tokens) == Some(d)
    ensures SameFrozen(c.blocks, d.blocks, n)
    decreases |tokens|
  {
    if tokens != [] {
      var m := Step(e, c, tokens[0]).value;
      StepFrozen(e, c, tokens[0], m, n);
      RunFrozen(e, m, tokens[1..], d, n);
    }
  }

  lemma OpeningStep(e: Env, c: Config, t: Token, d: Config)
    requires Step(e, c, t) == Some(d) && |d.blocks| == |c.blocks| + 1
    ensures c.phase.Inside? && SameFrozen(c.blocks, d.blocks, |c.blocks|)
    ensures FrozenPart(d.blocks[|c.blocks|]) ==
            Frozen(c.phase.st, c.segments, c.lastEnd, t.offset + 1, d.blocks[|c.blocks|].dropped, c.phase.open.ignored, c.phase.open.start)
    ensures d.lastEnd == t.offset + 1 && d.segments == [] && d.phase.Between?
  {
    hide Step;
    var mid, eff := StepEffect(e, c, t, d);
    StepFrozen(e, c, t, d, |c.blocks|);
    assert eff.Opened?;
  }

  lemma ClosingStep(e: Env, c: Config, t: Token, d: Config)
    requires Step(e, c, t) == Some(d) && |c.blocks| == |d.blocks| + 1
    ensures d.phase.Inside? && d.phase.seen && SameFrozen(c.blocks, d.blocks, |d.blocks|)
    ensures FrozenPart(c.blocks[|d.blocks|]) ==
            Frozen(d.phase.st, d.segments, d.lastEnd, c.blocks[|d.blocks|].base, c.blocks[|d.blocks|].dropped, d.phase.open.ignored, d.phase.open.start)
  {
    hide Step;
    var mid, eff := StepEffect(e, c, t, d);
    StepFrozen(e, c, t, d, |d.blocks|);
    assert eff.Closed? || eff.EndedAndClosed?;
  }

  /** Main result: whatever happens between a '{' and its matching '}', at any nesting depth, the '}' returns
      to the owner with the state, the segment start and the end offset it had at the '{', and with the
      child-block flag set. */
  lemma MatchedBlock(e: Env, c: Config, open: Token, inner: seq<Token>, close: Token, a: Config, b: Config, d: Config)
    requires Step(e, c, open) == Some(a) && |a.blocks| == |c.blocks| + 1
    requires StaysInside(e, a, inner, |a.blocks|) && Run(e, a, inner) == Some(b)
    requires Step(e, b, close) == Some(d) && |d.blocks| == |c.blocks|
    ensures c.phase.Inside? && d.phase.Inside?
    ensures d.phase.st == c.phase.st && d.phase.seen
    ensures d.phase.open.start == c.phase.open.start && d.phase.open.ignored == c.phase.open.ignored
    ensures d.lastEnd == c.lastEnd && d.segments == c.segments
    ensures SameFrozen(c.blocks, d.blocks, |c.blocks|)
  {
    OpeningStep(e, c, open, a);
    RunFrozen(e, a, inner, b, |a.blocks|);
    StepDepth(e, b, close, d);
    ClosingStep(e, b, close, d);
    assert FrozenPart(a.blocks[|c.blocks|]) == FrozenPart(b.blocks[|c.blocks|]);
  }

  lemma StepDepth(e: Env, c: Config, t: Token, d: Config)
    requires Step(e, c, t) == Some(d)
    ensures |c.blocks| - 1 <= |d.blocks| <= |c.blocks| + 1
  {
    hide Step;
    var mid, eff := StepEffect(e, c, t, d);
  }

  // ----- line continuations -----

  /** Main result: in the three states where entries or values may follow, a backslash, any whitespace and
      comments, and a newline together change nothing. */
  lemma EsclineIsNothing(e: Env, c: Config, fill: seq<Token>, slash: Token, newline: Token)
    requires c.annotation.NoAnnotation? && !c.cont
    requires c.phase.Inside? && (c.phase.st == AtParams || c.phase.st == AtPostWS || c.phase.st == AtPropValue)
    requires slash.id.Continuation? && newline.id.Newline?
    requires forall i :: 0 <= i < |fill| ==> fill[i].id.Whitespace? || IsComment(fill[i].id)
    ensures Run(e, c, [slash] + fill + [newline]) == Some(c)
  {
    var waiting := c.(cont := true);
    assert Step(e, c, slash) == Some(waiting);
    assert ([slash] + fill + [newline])[1..] == fill + [newline];
    FillIsNothing(e, waiting, fill);
    RunAppend(e, waiting, fill, [newline]);
    assert Step(e, waiting, newline) == Some(c);
    assert [newline][1..] == [];
  }

  lemma {:induction false} FillIsNothing(e: Env, c: Config, fill: seq<Token>)
    requires c.annotation.NoAnnotation? && c.cont
    requires c.phase.Inside? && (c.phase.st == AtParams || c.phase.st == AtPostWS || c.phase.st == AtPropValue)
    requires forall i :: 0 <= i < |fill| ==> fill[i].id.Whitespace? || IsComment(fill[i].id)
    ensures Run(e, c, fill) == Some(c)
    decreases |fill|
  {
    if fill != [] {
      assert Step(e, c, fill[0]) == Some(c);
      FillIsNothing(e, c, fill[1..]);
    }
  }

  predicate IsFill(fill: seq<Token>) { forall i :: 0 <= i < |fill| ==> fill[i].id.Whitespace? || IsComment(fill[i].id) }

  lemma EsclineSplits(e: Env, c: Config, d: Config, slash: Token, fill: seq<Token>, newline: Token)
    requires Step(e, c, slash) == Some(d)
    ensures Run(e, c, [slash] + fill + [newline]) == Run(e, d, fill + [newline])
  {
    hide Step;
    assert ([slash] + fill + [newline])[1..] == fill + [newline];
  }

  /** Directly behind an entry, the three together are whitespace. */
  lemma EsclineBehindEntry(e: Env, c: Config, slash: Token, fill: seq<Token>, newline: Token)
    requires c.phase.Inside? && c.phase.st == AtArgProp && c.annotation.NoAnnotation? && !c.cont
    requires slash.id.Continuation? && IsFill(fill) && newline.id.Newline?
    ensures Run(e, c, [slash] + fill + [newline]) == Some(Goto(c, AtPostWS))
  {
    var d := Goto(c.(cont := true), AtPostWS);
    assert Step(e, c, slash) == Some(d);
    EsclineSplits(e, c, d, slash, fill, newline);
    FillIsNothing(e, d, fill);
    assert Step(e, d, newline) == Some(Goto(c, AtPostWS));
    hide Step;
    RunAppend(e, d, fill, [newline]);
    RunOne(e, d, newline);
  }

  /**
   * Directly behind a name, the backslash and the newline are nothing, so that no entry may follow them without whitespace;
   * whitespace between them counts; a comment directly behind the backslash is refused.
   */
  lemma EsclineBehindName(e: Env, c: Config, slash: Token, fill: seq<Token>, newline: Token)
    requires c.phase.Inside? && c.phase.st == AtNode && c.annotation.NoAnnotation? && !c.cont
    requires slash.id.Continuation? && IsFill(fill) && newline.id.Newline?
    ensures Run(e, c, [slash] + fill + [newline]) ==
      if fill == [] then Some(c) else if fill[0].id.Whitespace? then Some(Goto(c, AtParams)) else None
  {
    var d := c.(cont := true);
    assert Step(e, c, slash) == Some(d);
    EsclineSplits(e, c, d, slash, fill, newline);
    if fill == [] {
      assert fill + [newline] == [newline];
      assert Step(e, d, newline) == Some(c);
      RunOne(e, d, newline);
    } else {
      assert (fill + [newline])[1..] == fill[1..] + [newline];
      var f := Goto(d, AtParams);
      assert fill[0].id.Whitespace? ==> Step(e, d, fill[0]) == Some(f);
      assert !fill[0].id.Whitespace? ==> Step(e, d, fill[0]) == None;
      if fill[0].id.Whitespace? {
        FillIsNothing(e, f, fill[1..]);
        assert Step(e, f, newline) == Some(Goto(c, AtParams));
        hide Step;
        RunHead(e, d, fill + [newline], f);
        RunAppend(e, f, fill[1..], [newline]);
        RunOne(e, f, newline);
      }
    }
  }

  /** Between nodes, an escaped newline is nothing, even where a newline is refused: between an annotation and its node. */
  lemma EsclineBetweenNodes(e: Env, c: Config, slash: Token, fill: seq<Token>, newline: Token)
    requires c.phase.Between? && c.annotation.NoAnnotation? && !c.cont
    requires slash.id.Continuation? && IsFill(fill) && newline.id.Newline?
    ensures Run(e, c, [slash] + fill + [newline]) == Some(c)
  {
    var d := c.(cont := true);
    assert Step(e, c, slash) == Some(d);
    EsclineSplits(e, c, d, slash, fill, newline);
    FillBetween(e, d, fill);
    assert Step(e, d, newline) == Some(c);
    hide Step;
    RunAppend(e, d, fill, [newline]);
    RunOne(e, d, newline);
  }

  lemma {:induction false} FillBetween(e: Env, c: Config, fill: seq<Token>)
    requires c.phase.Between? && c.annotation.NoAnnotation? && IsFill(fill)
    ensures Run(e, c, fill) == Some(c)
    decreases |fill|
  {
    if fill != [] {
      assert Step(e, c, fill[0]) == Some(c);
      FillBetween(e, c, fill[1..]);
    }
  }
}
