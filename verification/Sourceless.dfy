// The parser uses the source only for the raw segments of the nodes it finishes: on the same tokens it builds the same
// trees, whatever text they come from.
module Sourceless {
  import opened Basics
  import opened Tokens
  import opened Documents
  import opened Machine
  import RoundTrip

  /** A node without raw segments at any depth. */
  function Bare(n: Node): Node
    decreases n
  {
    n.(raw := None, children := BareAll(n.children))
  }

  function BareAll(nodes: seq<Node>): seq<Node>
    decreases nodes
  {
    if nodes == [] then [] else BareAll(nodes[..|nodes| - 1]) + [Bare(nodes[|nodes| - 1])]
  }

  lemma BareSnoc(nodes: seq<Node>, n: Node)
    ensures BareAll(nodes + [n]) == BareAll(nodes) + [Bare(n)]
  {
    assert (nodes + [n])[..|nodes + [n]| - 1] == nodes;
  }

  function BareOpen(o: OpenNode): OpenNode { o.(node := Bare(o.node)) }

  function BareBlocks(blocks: seq<Block>): seq<Block> {
    seq(|blocks|, i requires 0 <= i < |blocks| => blocks[i].(owner := BareOpen(blocks[i].owner)))
  }

  function BarePhase(p: Phase): Phase {
    if p.Inside? then p.(open := BareOpen(p.open)) else p
  }

  function BareConfig(c: Config): Config {
    c.(doc := BareAll(c.doc), blocks := BareBlocks(c.blocks), phase := BarePhase(c.phase))
  }

  function BareResult(r: Option<Config>): Option<Config> {
    if r.Some? then Some(BareConfig(r.value)) else None
  }

  function NoSource(e: Env): Env { e.(source := []) }

  // ----- the building blocks -----

  lemma DroppedIsBare(blocks: seq<Block>)
    ensures InDropped(BareBlocks(blocks)) == InDropped(blocks) && |BareBlocks(blocks)| == |blocks|
  {}

  lemma StartIsBare(e: Env, c: Config, t: Token)
    ensures StartNode(NoSource(e), BareConfig(c), t) == BareResult(StartNode(e, c, t))
  {
    hide InDropped, BareBlocks;
    DroppedIsBare(c.blocks);
    if StartNode(e, c, t).Some? { NewIsBare(StartNode(e, c, t).value.phase.open.node); }
  }

  lemma NewIsBare(n: Node)
    requires n.raw.None? && n.children == []
    ensures Bare(n) == n
  {}

  lemma ArgumentIsBare(e: Env, c: Config, t: Token)
    requires c.phase.Inside?
    ensures AddArgument(NoSource(e), BareConfig(c), t) == BareResult(AddArgument(e, c, t))
    ensures AddProperty(NoSource(e), BareConfig(c), t) == BareResult(AddProperty(e, c, t))
  {
    hide BareAll, BareBlocks, Put;
  }

  lemma CommitIsBare(e: Env, c: Config)
    requires c.phase.Inside?
    ensures Commit(NoSource(e), BareConfig(c)) == BareResult(Commit(e, c))
    ensures CommitPending(NoSource(e), BareConfig(c)) == BareResult(CommitPending(e, c))
    ensures Commit(e, c).Some? ==> Commit(e, c).value.phase.Inside?
    ensures CommitPending(e, c).Some? ==> CommitPending(e, c).value.phase.Inside?
  {
    hide BareAll, BareBlocks, BareOpen;
    ArgumentIsBare(e, c, c.ident);
  }

  lemma CloseIsBare(e: Env, o: OpenNode, end: nat)
    ensures Close(NoSource(e), BareOpen(o), end) == Bare(Close(e, o, end)) == Bare(o.node)
  {}

  lemma EndIsBare(e: Env, c: Config, end: nat)
    requires c.phase.Inside?
    ensures EndNode(NoSource(e), BareConfig(c), end) == BareConfig(EndNode(e, c, end))
  {
    hide Close, BareAll;
    var o := c.phase.open;
    var node := Close(e, o, end);
    CloseIsBare(e, o, end);
    if !o.ignored {
      if c.blocks == [] {
        BareSnoc(c.doc, node);
      } else {
        var k := |c.blocks| - 1;
        var b := c.blocks[k];
        BareSnoc(b.owner.node.children, node);
        var owner := b.owner.(node := b.owner.node.(children := b.owner.node.children + [node]));
        assert BareBlocks(c.blocks[..k] + [b.(owner := owner)]) == BareBlocks(c.blocks)[..k] + [b.(owner := BareOpen(owner))];
      }
    }
  }

  lemma OpenIsBare(c: Config, t: Token)
    requires c.phase.Inside?
    ensures OpenBlock(BareConfig(c), t) == BareConfig(OpenBlock(c, t))
  {
    hide BareAll, InDropped;
    DroppedIsBare(c.blocks);
    var d := OpenBlock(c, t);
    assert BareBlocks(d.blocks) == BareBlocks(c.blocks) + [d.blocks[|c.blocks|].(owner := BareOpen(c.phase.open))];
  }

  lemma CloseBlockIsBare(c: Config)
    requires c.blocks != []
    ensures CloseBlock(BareConfig(c)) == BareConfig(CloseBlock(c))
  {
    hide BareAll;
    var k := |c.blocks| - 1;
    assert BareBlocks(c.blocks)[..k] == BareBlocks(c.blocks[..k]);
  }

  lemma EndBothIsBare(e: Env, c: Config, t: Token)
    requires c.phase.Inside?
    ensures EndNodeAndBlock(NoSource(e), BareConfig(c), t) == BareResult(EndNodeAndBlock(e, c, t))
  {
    hide EndNode, CloseBlock, BareAll;
    EndIsBare(e, c, t.offset);
    var d := EndNode(e, c, t.offset);
    DroppedIsBare(d.blocks);
    if d.blocks != [] { CloseBlockIsBare(d); }
  }

  lemma LeaveIsBare(e: Env, c: Config, t: Token)
    requires c.phase.Inside? && !t.id.EOF?
    ensures CommitAndLeave(NoSource(e), BareConfig(c), t) == BareResult(CommitAndLeave(e, c, t))
  {
    hide EndNode, OpenBlock, EndNodeAndBlock, CommitPending, BareAll, BareBlocks;
    CommitIsBare(e, c);
    if CommitPending(e, c).Some? {
      var m := CommitPending(e, c).value;
      EndIsBare(e, m, TokenEnd(e, t));
      OpenIsBare(m, t);
      EndBothIsBare(e, m, t);
    }
  }

  lemma GotoIsBare(c: Config, st: NodeState)
    requires c.phase.Inside?
    ensures Goto(BareConfig(c), st) == BareConfig(Goto(c, st))
  {
    hide BareAll, BareBlocks;
  }

  // ----- the states -----

  lemma BetweenIsBare(e: Env, c: Config, t: Token)
    requires c.phase.Between?
    ensures BetweenNodes(NoSource(e), BareConfig(c), t) == BareResult(BetweenNodes(e, c, t))
  {
    hide StartNode, CloseBlock, BareAll, BareBlocks;
    StartIsBare(e, c, t);
    DroppedIsBare(c.blocks);
    if c.blocks != [] { CloseBlockIsBare(c); }
  }

  lemma InNodeIsBare(e: Env, c: Config, t: Token)
    requires c.phase.Inside? && !t.id.EOF?
    ensures InNode(NoSource(e), BareConfig(c), t) == BareResult(InNode(e, c, t))
  {
    hide EndNode, OpenBlock, EndNodeAndBlock, Goto, BareAll, BareBlocks;
    GotoIsBare(c, AtParams);
    EndIsBare(e, c, TokenEnd(e, t));
    OpenIsBare(c, t);
    EndBothIsBare(e, c, t);
  }

  lemma InParamsIsBare(e: Env, c: Config, t: Token)
    requires c.phase.Inside? && !t.id.EOF?
    ensures InParams(NoSource(e), BareConfig(c), t) == BareResult(InParams(e, c, t))
  {
    hide EndNode, OpenBlock, Goto, FirstEntry, BareAll, BareBlocks, BareOpen;
    EndIsBare(e, c, TokenEnd(e, t));
    OpenIsBare(c, t);
    GotoIsBare(c, AtEnd);
    FirstIsBare(e, c, t);
  }

  lemma FirstIsBare(e: Env, c: Config, t: Token)
    requires c.phase.Inside?
    ensures FirstEntry(NoSource(e), BareConfig(c), t) == BareResult(FirstEntry(e, c, t))
  {
    hide Commit, BareAll, BareBlocks, BareOpen;
    CommitIsBare(e, c.(typ := NO_TOKEN, ident := t));
  }

  lemma InEndIsBare(e: Env, c: Config, t: Token)
    requires c.phase.Inside? && !t.id.EOF?
    ensures InEnd(NoSource(e), BareConfig(c), t) == BareResult(InEnd(e, c, t))
  {
    hide EndNode, EndNodeAndBlock, Goto, BareAll, BareBlocks;
    GotoIsBare(c, AtParams);
    EndIsBare(e, c, TokenEnd(e, t));
    EndBothIsBare(e, c, t);
  }

  lemma InArgPropIsBare(e: Env, c: Config, t: Token)
    requires c.phase.Inside? && !t.id.EOF?
    ensures InArgProp(NoSource(e), BareConfig(c), t) == BareResult(InArgProp(e, c, t))
  {
    hide CommitAndLeave, Commit, Goto, BareAll, BareBlocks, BareOpen;
    CommitIsBare(e, c);
    GotoIsBare(c, AtPropValue);
    GotoIsBare(c, AtPostWS);
    GotoIsBare(c.(cont := true), AtPostWS);
    LeaveIsBare(e, c, t);
  }

  lemma NextIsBare(e: Env, c: Config, t: Token)
    requires c.phase.Inside?
    ensures NextEntry(NoSource(e), BareConfig(c), t) == BareResult(NextEntry(e, c, t))
    ensures BeforeComment(NoSource(e), BareConfig(c), t) == BareResult(BeforeComment(e, c, t))
  {
    hide Commit, CommitPending, BareAll, BareBlocks, BareOpen;
    CommitIsBare(e, c);
  }

  lemma InPostWSIsBare(e: Env, c: Config, t: Token)
    requires c.phase.Inside? && !t.id.EOF?
    ensures InPostWS(NoSource(e), BareConfig(c), t) == BareResult(InPostWS(e, c, t))
  {
    hide CommitAndLeave, NextEntry, BeforeComment, BareAll, BareBlocks, BareOpen;
    NextIsBare(e, c, t);
    LeaveIsBare(e, c, t);
  }

  lemma InPropValueIsBare(e: Env, c: Config, t: Token)
    requires c.phase.Inside?
    ensures InPropValue(NoSource(e), BareConfig(c), t) == BareResult(InPropValue(e, c, t))
  {
    hide AddProperty, BareAll, BareBlocks, BareOpen;
    ArgumentIsBare(e, c, t);
    AddedIsInside(e, c, t);
  }

  lemma AddedIsInside(e: Env, c: Config, t: Token)
    requires c.phase.Inside?
    ensures AddProperty(e, c, t).Some? ==> AddProperty(e, c, t).value.phase.Inside?
  {}

  lemma HandleIsBare(e: Env, c: Config, t: Token)
    requires !t.id.EOF?
    ensures Handle(NoSource(e), BareConfig(c), t) == BareResult(Handle(e, c, t))
  {
    hide BetweenNodes, InNode, InParams, InEnd, InArgProp, InPostWS, InPropValue, BareAll, BareBlocks, BareOpen;
    match c.phase
    case Between => BetweenIsBare(e, c, t);
    case Inside(_, AtNode, _) => InNodeIsBare(e, c, t);
    case Inside(_, AtParams, _) => InParamsIsBare(e, c, t);
    case Inside(_, AtEnd, _) => InEndIsBare(e, c, t);
    case Inside(_, AtArgProp, _) => InArgPropIsBare(e, c, t);
    case Inside(_, AtPostWS, _) => InPostWSIsBare(e, c, t);
    case Inside(_, AtPropValue, _) => InPropValueIsBare(e, c, t);
  }

  /** A step without the source does what the step with it does, but for raw segments. */
  lemma StepIsBare(e: Env, c: Config, t: Token)
    requires !t.id.EOF?
    ensures Step(NoSource(e), BareConfig(c), t) == BareResult(Step(e, c, t))
  {
    hide Handle, BareAll, BareBlocks, BareOpen;
    HandleIsBare(e, c, t);
    HandleIsBare(e, c.(cont := false), t);
  }

  lemma {:induction false} RunIsBare(e: Env, c: Config, tokens: seq<Token>)
    requires forall k :: 0 <= k < |tokens| ==> !tokens[k].id.EOF?
    ensures Run(NoSource(e), BareConfig(c), tokens) == BareResult(Run(e, c, tokens))
    decreases |tokens|
  {
    hide Step, BareConfig;
    if tokens != [] {
      StepIsBare(e, c, tokens[0]);
      if Step(e, c, tokens[0]).Some? { RunIsBare(e, Step(e, c, tokens[0]).value, tokens[1..]); }
    }
  }

  /** Main result: what tokens other than EOF are read as does not depend on the text they come from. */
  lemma SameTokensSameTrees(e: Env, f: Env, c: Config, tokens: seq<Token>)
    requires e.decode == f.decode && forall k :: 0 <= k < |tokens| ==> !tokens[k].id.EOF?
    ensures BareResult(Run(e, c, tokens)) == BareResult(Run(f, c, tokens))
  {
    hide Run, BareConfig;
    RunIsBare(e, c, tokens);
    RunIsBare(f, c, tokens);
  }

  // ----- what is the same -----

  lemma {:induction false} BareErases(n: Node)
    ensures RoundTrip.Erase(Bare(n)) == RoundTrip.Erase(n)
    decreases n
  {
    hide RoundTrip.EraseValues, RoundTrip.EraseProps;
    BareAllErase(n.children);
  }

  lemma {:induction false} BareAllErase(nodes: seq<Node>)
    ensures RoundTrip.EraseAll(BareAll(nodes)) == RoundTrip.EraseAll(nodes)
    decreases nodes
  {
    hide Bare, RoundTrip.Erase;
    if nodes != [] {
      var k := |nodes| - 1;
      BareAllErase(nodes[..k]);
      BareErases(nodes[k]);
      RoundTrip.EraseAllSnoc(BareAll(nodes[..k]), Bare(nodes[k]));
    }
  }
}
