// Every transition has one of six effects on the tree and on the block stack. The laws of whole
// runs are proved once per effect instead of once per handler.
module Effects {
  import opened Basics
  import opened Tokens
  import opened Documents
  import opened Machine

  datatype Effect = Local | Started | Ended | Opened | Closed | EndedAndClosed

  /** What is left of a configuration without flags, pending tokens, node states and entries. */
  datatype Structure = Structure(doc: seq<Node>, segments: seq<Segment>, blocks: seq<Block>, lastEnd: nat, open: Option<Skeleton>)
  datatype Skeleton = Skeleton(name: Value, typ: Bytes, children: seq<Node>, raw: Option<RawSegment>, ignored: bool, start: nat, seen: bool)

  ghost function StructureOf(c: Config): Structure {
    Structure(c.doc, c.segments, c.blocks, c.lastEnd, SkeletonOf(c.phase))
  }

  ghost function SkeletonOf(p: Phase): Option<Skeleton> {
    match p
    case Between => None
    case Inside(o, _, seen) => Some(Skeleton(o.node.name, o.node.typ, o.node.children, o.node.raw, o.ignored, o.start, seen))
  }

  /** Only flags, pending tokens, the node state and the entries of the innermost node may differ. */
  ghost predicate SameStructure(c: Config, d: Config) {
    StructureOf(c) == StructureOf(d)
  }

  /** Nothing is added to a node inside a slashdash other than to the detached node itself. */
  ghost predicate NewlyOpened(c: Config, o: OpenNode) {
    && o.node.args == [] && o.node.props == [] && o.node.children == [] && o.node.raw.None?
    && o.start == c.lastEnd
    && o.ignored == (c.skipNode || InDropped(c.blocks))
  }

  ghost predicate Has(e: Env, c: Config, t: Token, mid: Config, eff: Effect, d: Config) {
    && SameStructure(c, mid)
    && mid.skipNode == (c.skipNode || (eff.Local? && c.phase.Between? && t.id.TokenComment?))
    && match eff
       case Local => d == mid && !t.id.BraceOpen? && !t.id.BraceClose?
       case Started =>
         && mid.phase.Between? && IsIdentifier(t.id)
         && d.phase.Inside? && NewlyOpened(mid, d.phase.open) && d.phase.st == AtNode && !d.phase.seen
         && d.doc == mid.doc && d.segments == mid.segments && d.blocks == mid.blocks && d.lastEnd == mid.lastEnd
         && !d.skipNode
       case Ended => mid.phase.Inside? && IsTerminator(t.id) && d == EndNode(e, mid, TokenEnd(e, t))
       case Opened => mid.phase.Inside? && c.phase.Inside? && mid.phase.st == c.phase.st && t.id.BraceOpen? && d == OpenBlock(mid, t)
       case Closed => mid.phase.Between? && !mid.skipNode && t.id.BraceClose? && mid.blocks != [] && d == CloseBlock(mid)
       case EndedAndClosed =>
         && mid.phase.Inside? && t.id.BraceClose? && mid.blocks != []
         && d == CloseBlock(EndNode(e, mid, t.offset))
  }

  lemma CommitKeepsStructure(e: Env, c: Config)
    requires c.phase.Inside?
    ensures Commit(e, c).Some? ==> SameStructure(c, Commit(e, c).value) && Commit(e, c).value.skipNode == c.skipNode
    ensures CommitPending(e, c).Some? ==> SameStructure(c, CommitPending(e, c).value) && CommitPending(e, c).value.skipNode == c.skipNode
    ensures CommitPending(e, c).Some? ==> CommitPending(e, c).value.phase.Inside? && CommitPending(e, c).value.phase.st == c.phase.st
  {}

  lemma EndKeepsDepth(e: Env, c: Config, end: nat)
    requires c.phase.Inside?
    ensures |EndNode(e, c, end).blocks| == |c.blocks|
  {}

  lemma EndAndClose(e: Env, c: Config, m: Config, t: Token, d: Config) returns (eff: Effect)
    requires SameStructure(c, m) && m.skipNode == c.skipNode && m.phase.Inside? && t.id.BraceClose?
    requires EndNodeAndBlock(e, m, t) == Some(d)
    ensures Has(e, c, t, m, eff, d)
  {
    EndKeepsDepth(e, m, t.offset);
    eff := EndedAndClosed;
  }

  lemma BetweenEffect(e: Env, c: Config, t: Token, d: Config) returns (mid: Config, eff: Effect)
    requires c.phase.Between? && BetweenNodes(e, c, t) == Some(d)
    ensures Has(e, c, t, mid, eff, d)
  {
    if IsIdentifier(t.id) {
      mid, eff := c, Started;
    } else if t.id.BraceClose? {
      mid, eff := c, Closed;
    } else {
      mid, eff := d, Local;
    }
  }

  lemma InNodeEffect(e: Env, c: Config, t: Token, d: Config) returns (mid: Config, eff: Effect)
    requires c.phase.Inside? && InNode(e, c, t) == Some(d)
    ensures Has(e, c, t, mid, eff, d)
  {
    mid := c;
    if IsTerminator(t.id) {
      eff := Ended;
    } else if t.id.BraceOpen? {
      eff := Opened;
    } else if t.id.BraceClose? {
      eff := EndAndClose(e, c, c, t, d);
    } else {
      mid, eff := d, Local;
    }
  }

  lemma InParamsEffect(e: Env, c: Config, t: Token, d: Config) returns (mid: Config, eff: Effect)
    requires c.phase.Inside? && InParams(e, c, t) == Some(d)
    ensures Has(e, c, t, mid, eff, d)
  {
    hide EndNode, OpenBlock;
    mid := c;
    if IsTerminator(t.id) && !c.skipEntry {
      eff := Ended;
    } else if t.id.BraceOpen? {
      eff := Opened;
    } else if t.id.SuffixedDecimal? {
      CommitKeepsStructure(e, c.(typ := NO_TOKEN, ident := t));
      mid, eff := d, Local;
    } else {
      mid, eff := d, Local;
    }
  }

  lemma InEndEffect(e: Env, c: Config, t: Token, d: Config) returns (mid: Config, eff: Effect)
    requires c.phase.Inside? && InEnd(e, c, t) == Some(d)
    ensures Has(e, c, t, mid, eff, d)
  {
    if IsTerminator(t.id) && !c.skipEntry {
      mid, eff := c, Ended;
    } else if t.id.BraceClose? {
      mid := c;
      eff := EndAndClose(e, c, c, t, d);
    } else {
      mid, eff := d, Local;
    }
  }

  lemma LeavingTokens(e: Env, c: Config, t: Token)
    requires c.phase.Inside?
    ensures CommitAndLeave(e, c, t).Some? ==> IsTerminator(t.id) || t.id.BraceOpen? || t.id.BraceClose?
  {}

  lemma CommittedEffect(e: Env, c: Config, t: Token, d: Config) returns (mid: Config, eff: Effect)
    requires c.phase.Inside? && CommitAndLeave(e, c, t) == Some(d)
    ensures Has(e, c, t, mid, eff, d)
  {
    CommitKeepsStructure(e, c);
    mid := CommitPending(e, c).value;
    if IsTerminator(t.id) {
      eff := Ended;
    } else if t.id.BraceOpen? {
      eff := Opened;
    } else {
      eff := EndAndClose(e, c, mid, t, d);
    }
  }

  lemma InArgPropLocal(e: Env, c: Config, t: Token, d: Config)
    requires c.phase.Inside? && InArgProp(e, c, t) == Some(d) && CommitAndLeave(e, c, t).None?
    ensures SameStructure(c, d) && d.skipNode == c.skipNode
  {
    hide CommitAndLeave, Commit, CommitPending;
    CommitKeepsStructure(e, c);
  }

  lemma InArgPropEffect(e: Env, c: Config, t: Token, d: Config) returns (mid: Config, eff: Effect)
    requires c.phase.Inside? && InArgProp(e, c, t) == Some(d)
    ensures Has(e, c, t, mid, eff, d)
  {
    hide CommitAndLeave, EndNode, OpenBlock, CloseBlock, NewlyOpened, Commit, CommitPending;
    LeavingTokens(e, c, t);
    if CommitAndLeave(e, c, t).Some? {
      mid, eff := CommittedEffect(e, c, t, d);
    } else {
      InArgPropLocal(e, c, t, d);
      mid, eff := d, Local;
    }
  }

  lemma EntryKeepsStructure(e: Env, c: Config, t: Token)
    requires c.phase.Inside?
    ensures NextEntry(e, c, t).Some? ==> SameStructure(c, NextEntry(e, c, t).value) && NextEntry(e, c, t).value.skipNode == c.skipNode
    ensures BeforeComment(e, c, t).Some? ==> SameStructure(c, BeforeComment(e, c, t).value) && BeforeComment(e, c, t).value.skipNode == c.skipNode
  {
    hide Commit, CommitPending;
    CommitKeepsStructure(e, c);
  }

  lemma InPostWSLocal(e: Env, c: Config, t: Token, d: Config)
    requires c.phase.Inside? && InPostWS(e, c, t) == Some(d) && CommitAndLeave(e, c, t).None?
    ensures SameStructure(c, d) && d.skipNode == c.skipNode
  {
    hide CommitAndLeave, NextEntry, BeforeComment;
    EntryKeepsStructure(e, c, t);
  }

  lemma InPostWSEffect(e: Env, c: Config, t: Token, d: Config) returns (mid: Config, eff: Effect)
    requires c.phase.Inside? && InPostWS(e, c, t) == Some(d)
    ensures Has(e, c, t, mid, eff, d)
  {
    hide CommitAndLeave, EndNode, OpenBlock, CloseBlock, NewlyOpened, Commit, CommitPending;
    LeavingTokens(e, c, t);
    if CommitAndLeave(e, c, t).Some? {
      mid, eff := CommittedEffect(e, c, t, d);
    } else {
      InPostWSLocal(e, c, t, d);
      mid, eff := d, Local;
    }
  }

  lemma InPropValueEffect(e: Env, c: Config, t: Token, d: Config) returns (mid: Config, eff: Effect)
    requires c.phase.Inside? && InPropValue(e, c, t) == Some(d)
    ensures Has(e, c, t, mid, eff, d)
  {
    mid, eff := d, Local;
  }

  lemma HandleEffect(e: Env, c: Config, t: Token, d: Config) returns (mid: Config, eff: Effect)
    requires Handle(e, c, t) == Some(d)
    ensures Has(e, c, t, mid, eff, d)
  {
    if !c.annotation.NoAnnotation? {
      mid, eff := d, Local;
    } else {
      match c.phase
      case Between => mid, eff := BetweenEffect(e, c, t, d);
      case Inside(_, AtNode, _) => mid, eff := InNodeEffect(e, c, t, d);
      case Inside(_, AtParams, _) => mid, eff := InParamsEffect(e, c, t, d);
      case Inside(_, AtEnd, _) => mid, eff := InEndEffect(e, c, t, d);
      case Inside(_, AtArgProp, _) => mid, eff := InArgPropEffect(e, c, t, d);
      case Inside(_, AtPostWS, _) => mid, eff := InPostWSEffect(e, c, t, d);
      case Inside(_, AtPropValue, _) => mid, eff := InPropValueEffect(e, c, t, d);
    }
  }

  /** Main result: a successful step changes the structure in one of the six ways. */
  lemma StepEffect(e: Env, c: Config, t: Token, d: Config) returns (mid: Config, eff: Effect)
    requires Step(e, c, t) == Some(d)
    ensures Has(e, c, t, mid, eff, d)
  {
    if c.cont && t.id.Newline? {
      mid, eff := d, Local;
    } else if t.id.Whitespace? || IsComment(t.id) {
      mid, eff := HandleEffect(e, c, t, d);
    } else {
      mid, eff := HandleEffect(e, c.(cont := false), t, d);
    }
  }
}
