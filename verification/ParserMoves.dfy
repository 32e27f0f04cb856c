// Each primitive move of the parser's fields represents the machine's move.
module ParserMoves {
  import opened Basics
  import opened Tokens
  import opened Documents
  import opened Machine
  import opened ParserRep
  import opened ParserTable

  /** Attaching a finished child changes no stack but the node stack. */
  lemma {:induction false} AttachStacks(c: Config, o: OpenNode, n: Node)
    ensures var d := Attach(c, o, n);
            && BlockStates(d.blocks) == BlockStates(c.blocks) && BlockSeen(d.blocks) == BlockSeen(c.blocks)
            && BlockEnds(d.blocks) == BlockEnds(c.blocks) && DroppedCount(d.blocks) == DroppedCount(c.blocks)
            && Container(d.blocks) == Container(c.blocks)
            && (DroppedInnermost(c.blocks) ==> DroppedInnermost(d.blocks))
  {
    var d := Attach(c, o, n);
    if d.blocks != c.blocks {
      var k := |c.blocks| - 1;
      assert d.blocks[..k] == c.blocks[..k];
    }
  }

  lemma AttachOpens(c: Config, o: OpenNode, n: Node)
    ensures var d := Attach(c, o, n);
            Owners(d.blocks) == Popped(Owners(c.blocks) + [o], n) && d.doc == PoppedDoc(c.doc, Owners(c.blocks) + [o], n)
  {
    OwnersLength(c.blocks);
    var d := Attach(c, o, n);
    var all := Owners(c.blocks) + [o];
    assert all[..|all| - 1] == Owners(c.blocks);
    if d.blocks != c.blocks {
      var k := |c.blocks| - 1;
      assert d.blocks[..k] == c.blocks[..k];
      assert Owners(d.blocks) == Owners(c.blocks[..k]) + [WithChild(c.blocks[k].owner, n)];
    }
  }

  lemma {:induction false} OwnersLength(blocks: seq<Block>)
    ensures |Owners(blocks)| == |blocks|
    decreases |blocks|
  {
    if blocks != [] {
      OwnersLength(blocks[..|blocks| - 1]);
    }
  }

  function StartedFields(k: Fields, r: Rec, ignored: bool): Fields
    requires forall i :: 0 <= i < |k.node| ==> k.node[i] < |k.store|
  {
    k.(store := WithStarted(k.store, k.node, r, ignored), doc := StartedDoc(k.store, k.doc, k.node, ignored),
       node := k.node + [|k.store|], nodeStartOffsets := k.nodeStartOffsets + [k.lastNodeEnd], nodeIgnored := k.nodeIgnored + [ignored],
       typeAnnot := if k.typeAnnot.Valid() then NO_TOKEN else k.typeAnnot, ignoreNextNode := false,
       states := k.states + [k.state], childBlockSeenStack := k.childBlockSeenStack + [k.childBlockSeen], state := StateNode)
  }

  lemma NodesInStore(k: Fields, c: Config)
    requires Rep(k, c)
    ensures forall i :: 0 <= i < |k.node| ==> k.node[i] < |k.store|
  {}

  lemma StartRep(e: Env, k: Fields, c: Config, t: Token, d: Config, r: Rec)
    requires Rep(k, c) && c.phase.Between? && c.annotation.NoAnnotation? && StartNode(e, c, t) == Some(d)
    requires Agrees(r, d.phase.open.node) && r.children == []
    ensures forall i :: 0 <= i < |k.node| ==> k.node[i] < |k.store|
    ensures Rep(StartedFields(k, r, d.phase.open.ignored), d)
  {
    NodesInStore(k, c);
    StartStacks(e, k, c, t, d, r);
    hide RepTree, WithStarted, StartedDoc, ValueOf, RepFlags, RepStates, RepNodes, Opens;
    StartTree(k.store, k.doc, k.node, c.doc, Opens(c), r, d.phase.open);
  }

  /** The flags and stacks of a begun node. */
  lemma StartStacks(e: Env, k: Fields, c: Config, t: Token, d: Config, r: Rec)
    requires RepFlags(k, c) && RepStates(k, c) && RepNodes(k, c)
    requires c.phase.Between? && c.annotation.NoAnnotation? && StartNode(e, c, t) == Some(d)
    requires forall i :: 0 <= i < |k.node| ==> k.node[i] < |k.store|
    ensures var f := StartedFields(k, r, d.phase.open.ignored); RepFlags(f, d) && RepStates(f, d) && RepNodes(f, d)
    ensures Opens(d) == Opens(c) + [d.phase.open] && d.doc == c.doc && d.phase.Inside?
  {
    hide WithStarted, StartedDoc, ValueOf, BlockStates, BlockSeen, BlockEnds, DroppedCount, DroppedInnermost;
    assert Opens(d) == Opens(c) + [d.phase.open];
  }

  /** The innermost node gets new entries. */
  lemma EntryRep(k: Fields, c: Config, n: Node, r: Rec)
    requires Rep(k, c) && c.phase.Inside? && c.annotation.NoAnnotation?
    requires Agrees(r, n) && n.raw.None? && n.children == c.phase.open.node.children
    ensures k.node != [] && k.node[|k.node| - 1] < |k.store|
    ensures r.children == k.store[k.node[|k.node| - 1]].children ==>
              Rep(k.(store := k.store[k.node[|k.node| - 1] := r]), c.(phase := c.phase.(open := c.phase.open.(node := n))))
  {
    hide RepLevel;
    var d := c.(phase := c.phase.(open := c.phase.open.(node := n)));
    var t := |k.node| - 1;
    assert Opens(c)[t] == c.phase.open;
    if r.children == k.store[k.node[t]].children {
      EntriesTree(k.store, k.doc, k.node, c.doc, Opens(c), r, n);
      assert Opens(d) == Opens(c)[t := d.phase.open];
      assert Starts(Opens(d)) == Starts(Opens(c)) && Ignored(Opens(d)) == Ignored(Opens(c));
    }
  }

  /** What popNodeAndStateAt leaves behind. */
  function EndedFields(k: Fields, raw: Option<RawSegment>, end: nat): Fields
    requires k.node != [] && k.node[|k.node| - 1] < |k.store| && k.states != [] && k.childBlockSeenStack != []
    requires |k.nodeStartOffsets| == |k.nodeIgnored| == |k.node|
  {
    var t := |k.node| - 1;
    k.(store := k.store[k.node[t] := k.store[k.node[t]].(raw := raw)],
       node := k.node[..t], nodeStartOffsets := k.nodeStartOffsets[..t], nodeIgnored := k.nodeIgnored[..t], lastNodeEnd := end,
       states := k.states[..|k.states| - 1], childBlockSeenStack := k.childBlockSeenStack[..|k.childBlockSeenStack| - 1],
       state := k.states[|k.states| - 1], childBlockSeen := k.childBlockSeenStack[|k.childBlockSeenStack| - 1])
  }

  /** With a node open, no stack is empty. */
  lemma InsideStacks(k: Fields, c: Config)
    requires Rep(k, c) && c.phase.Inside?
    ensures k.node != [] && k.node[|k.node| - 1] < |k.store| && k.states != [] && k.childBlockSeenStack != []
    ensures |k.nodeStartOffsets| == |k.nodeIgnored| == |k.node| && |k.childBlockSeenStack| == |k.states|
    ensures k.nodeStartOffsets[|k.node| - 1] == c.phase.open.start && k.nodeIgnored[|k.node| - 1] == c.phase.open.ignored
    ensures Agrees(k.store[k.node[|k.node| - 1]], c.phase.open.node) && c.phase.open.node.raw.None?
  {
    assert Opens(c)[|k.node| - 1] == c.phase.open;
    SameDepth(c.blocks);
  }

  lemma {:induction false} SameDepth(blocks: seq<Block>)
    ensures |BlockStates(blocks)| == |BlockSeen(blocks)| == 2 * |blocks|
    decreases |blocks|
  {
    if blocks != [] {
      SameDepth(blocks[..|blocks| - 1]);
    }
  }

  lemma EndOpens(e: Env, c: Config, end: nat)
    requires c.phase.Inside?
    ensures var d, n := EndNode(e, c, end), Close(e, c.phase.open, end);
            Opens(d) == Popped(Opens(c), n) && d.doc == PoppedDoc(c.doc, Opens(c), n)
  {
    hide Close;
    assert Opens(c) == Owners(c.blocks) + [c.phase.open];
    AttachOpens(c, c.phase.open, Close(e, c.phase.open, end));
  }

  lemma EndStacks(e: Env, c: Config, end: nat)
    requires c.phase.Inside? && DroppedInnermost(c.blocks)
    ensures var d := EndNode(e, c, end);
            && d == c.(doc := d.doc, blocks := d.blocks, phase := Between, lastEnd := end, segments := d.segments)
            && BlockStates(d.blocks) == BlockStates(c.blocks) && BlockSeen(d.blocks) == BlockSeen(c.blocks)
            && BlockEnds(d.blocks) == BlockEnds(c.blocks) && DroppedCount(d.blocks) == DroppedCount(c.blocks)
            && Container(d.blocks) == Container(c.blocks) && DroppedInnermost(d.blocks)
  {
    hide Close, BlockStates, BlockSeen, BlockEnds, DroppedCount, Container, DroppedInnermost;
    AttachStacks(c, c.phase.open, Close(e, c.phase.open, end));
  }

  /** The raw segment that popNodeAndStateAt computes from the stacks. */
  function EndedRaw(e: Env, k: Fields, end: nat): Option<RawSegment>
    requires k.node != [] && k.node[|k.node| - 1] < |k.store| && |k.nodeStartOffsets| == |k.nodeIgnored| == |k.node|
  {
    var t := |k.node| - 1;
    var start := k.nodeStartOffsets[t];
    if !k.nodeIgnored[t] && |e.source| > 0 && end > start && end <= |e.source| then Some(RawSegment(e.source, start, end))
    else k.store[k.node[t]].raw
  }

  lemma EndRep(e: Env, k: Fields, c: Config, end: nat)
    requires Rep(k, c) && c.phase.Inside? && c.annotation.NoAnnotation?
    ensures k.node != [] && k.node[|k.node| - 1] < |k.store| && k.states != [] && |k.childBlockSeenStack| == |k.states|
    ensures |k.nodeStartOffsets| == |k.nodeIgnored| == |k.node|
    ensures Rep(EndedFields(k, EndedRaw(e, k, end), end), EndNode(e, c, end))
  {
    hide RepTree, Close, EndNode, BlockStates, BlockSeen, BlockEnds, DroppedCount, Container, DroppedInnermost,
      Opens, Popped, Starts, Ignored;
    InsideStacks(k, c);
    var o := c.phase.open;
    var n := Close(e, o, end);
    CloseKeepsNode(e, o, end);
    CloseRaw(e, o, end);
    LastOpen(c);
    EndTree(k.store, k.doc, k.node, c.doc, Opens(c), n);
    EndStacks(e, c, end);
    EndOpens(e, c, end);
    PoppedStacks(Opens(c), n);
    EndStates(e, k, c, end);
  }

  lemma LastOpen(c: Config)
    requires c.phase.Inside?
    ensures Opens(c) != [] && Opens(c)[|Opens(c)| - 1] == c.phase.open
  {}

  lemma CloseKeepsNode(e: Env, o: OpenNode, end: nat)
    ensures Close(e, o, end) == o.node.(raw := Close(e, o, end).raw)
  {}

  lemma PoppedStacks(opens: seq<OpenNode>, n: Node)
    requires opens != []
    ensures |Popped(opens, n)| == |opens| - 1 && |Starts(opens)| == |Ignored(opens)| == |opens|
    ensures Starts(Popped(opens, n)) == Starts(opens)[..|opens| - 1]
    ensures Ignored(Popped(opens, n)) == Ignored(opens)[..|opens| - 1]
  {}

  lemma EndStates(e: Env, k: Fields, c: Config, end: nat)
    requires RepStates(k, c) && c.phase.Inside? && c.annotation.NoAnnotation?
    ensures k.states[..|k.states| - 1] == BlockStates(c.blocks) && k.states[|k.states| - 1] == Container(c.blocks)
    ensures k.childBlockSeenStack[..|k.childBlockSeenStack| - 1] == BlockSeen(c.blocks)
    ensures !k.childBlockSeenStack[|k.childBlockSeenStack| - 1]
  {
    assert k.states == BlockStates(c.blocks) + [Container(c.blocks)];
    assert k.childBlockSeenStack == BlockSeen(c.blocks) + [false];
  }

  /** The fields after a BraceOpen handler. */
  function OpenedFields(k: Fields, t: Token): Fields {
    var dropped := k.ignoreNextArgProp || k.ignoreChildren > 0;
    k.(ignoreNextArgProp := false, ignoreChildren := k.ignoreChildren + if dropped then 1 else 0,
       lastNodeEndStack := k.lastNodeEndStack + [k.lastNodeEnd], lastNodeEnd := t.offset + 1,
       states := k.states + [k.state], childBlockSeenStack := k.childBlockSeenStack + [true], state := StateChildren, childBlockSeen := false)
  }

  lemma OpenFlags(k: Fields, c: Config, t: Token)
    requires RepFlags(k, c) && c.phase.Inside?
    ensures RepFlags(OpenedFields(k, t), OpenBlock(c, t))
  {
    hide RepStates, RepNodes;
    var d := OpenBlock(c, t);
    DroppedIsCounted(c.blocks);
    assert d.blocks[..|d.blocks| - 1] == c.blocks;
  }

  lemma OpenStates(k: Fields, c: Config, t: Token)
    requires RepStates(k, c) && c.phase.Inside? && c.annotation.NoAnnotation?
    ensures RepStates(OpenedFields(k, t), OpenBlock(c, t))
  {
    var d := OpenBlock(c, t);
    var n := |c.blocks|;
    assert d.blocks[..n] == c.blocks && d.blocks[n].ret == c.phase.st;
    assert BlockStates(d.blocks) == BlockStates(c.blocks) + [Container(c.blocks), OfNodeState(c.phase.st)];
    assert BlockSeen(d.blocks) == BlockSeen(c.blocks) + [false, true];
    assert k.states == BlockStates(c.blocks) + [Container(c.blocks)];
    assert k.childBlockSeenStack == BlockSeen(c.blocks) + [false];
  }

  lemma OpenKeepsOpens(c: Config, t: Token)
    requires c.phase.Inside?
    ensures Opens(OpenBlock(c, t)) == Opens(c) && OpenBlock(c, t).doc == c.doc
  {
    assert OpenBlock(c, t).blocks[..|c.blocks|] == c.blocks;
  }

  lemma OpenRep(k: Fields, c: Config, t: Token)
    requires Rep(k, c) && c.phase.Inside? && c.annotation.NoAnnotation?
    ensures Rep(OpenedFields(k, t), OpenBlock(c, t))
  {
    hide RepTree, RepFlags, RepStates, Opens, OpenBlock;
    OpenFlags(k, c, t);
    OpenStates(k, c, t);
    OpenKeepsOpens(c, t);
  }

  function LeftFields(k: Fields): Fields
    requires k.states != [] && k.childBlockSeenStack != [] && k.lastNodeEndStack != []
  {
    UnstackedFields(k).(ignoreChildren := if k.ignoreChildren > 0 then k.ignoreChildren - 1 else k.ignoreChildren,
                        lastNodeEnd := k.lastNodeEndStack[|k.lastNodeEndStack| - 1],
                        lastNodeEndStack := k.lastNodeEndStack[..|k.lastNodeEndStack| - 1])
  }

  /** The fields after a state is popped. */
  function UnstackedFields(k: Fields): Fields
    requires k.states != [] && k.childBlockSeenStack != []
  {
    k.(states := k.states[..|k.states| - 1], childBlockSeenStack := k.childBlockSeenStack[..|k.childBlockSeenStack| - 1],
       state := k.states[|k.states| - 1], childBlockSeen := k.childBlockSeenStack[|k.childBlockSeenStack| - 1])
  }

  lemma CloseRep(k: Fields, c: Config)
    requires Rep(k, c) && c.phase.Between? && c.blocks != [] && c.annotation.NoAnnotation?
    ensures k.states != [] && k.childBlockSeenStack != [] && k.lastNodeEndStack != []
    ensures Rep(LeftFields(k), CloseBlock(c))
  {
    hide RepTree;
    var n := |c.blocks| - 1;
    var b := c.blocks[n];
    var d := CloseBlock(c);
    DroppedIsCounted(c.blocks);
    assert Opens(d) == Opens(c);
    assert k.states == BlockStates(c.blocks[..n]) + [Container(c.blocks[..n])] + [OfNodeState(b.ret)];
    assert k.childBlockSeenStack == BlockSeen(c.blocks[..n]) + [false] + [true];
  }

  /** An annotation pushes the current state, whatever it is, and pops it when it closes. */
  lemma AnnotationRep(k: Fields, c: Config)
    requires Rep(k, c) && c.annotation.NoAnnotation?
    ensures Rep(k.(states := k.states + [k.state], childBlockSeenStack := k.childBlockSeenStack + [k.childBlockSeen], state := StateTypeAnnot),
                c.(annotation := Wanted))
  {
    hide RepTree;
    assert k.states + [] == k.states;
  }

  lemma AnnotatedStacks(k: Fields, c: Config)
    requires Rep(k, c) && c.annotation.Got?
    ensures k.states != [] && k.childBlockSeenStack != []
    ensures Rep(UnstackedFields(k), c.(annotation := NoAnnotation))
  {
    hide RepTree;
    var node := if c.phase.Inside? then [Container(c.blocks)] else [];
    var flag := if c.phase.Inside? then [false] else [];
    assert k.states == (BlockStates(c.blocks) + node) + [BaseState(c)];
    assert k.childBlockSeenStack == (BlockSeen(c.blocks) + flag) + [SeenOf(c)];
  }

  /** The mode flags and the pending tokens are represented by themselves. */
  lemma ModesRep(k: Fields, c: Config, b: bool)
    requires Rep(k, c)
    ensures Rep(k.(continuation := b), c.(cont := b))
    ensures Rep(k.(ignoreNextNode := b), c.(skipNode := b))
    ensures Rep(k.(ignoreNextArgProp := b), c.(skipEntry := b))
  {
    hide RepTree;
  }

  lemma PendingRep(k: Fields, c: Config, t: Token)
    requires Rep(k, c)
    ensures Rep(k.(ident := t), c.(ident := t))
    ensures Rep(k.(typeAnnot := t), c.(typ := t))
  {
    hide RepTree;
  }

  lemma GotoRep(k: Fields, c: Config, st: NodeState)
    requires Rep(k, c) && c.phase.Inside? && c.annotation.NoAnnotation?
    ensures Rep(k.(state := OfNodeState(st)), Goto(c, st))
  {
    hide RepTree;
    assert Opens(Goto(c, st)) == Opens(c);
  }

  lemma GotNameRep(k: Fields, c: Config)
    requires Rep(k, c) && c.annotation.Wanted?
    ensures Rep(k.(state := StateTypeDone), c.(annotation := Got))
  {
    hide RepTree;
  }

  lemma CloseRaw(e: Env, o: OpenNode, end: nat)
    ensures Close(e, o, end).raw == if !o.ignored && |e.source| > 0 && end > o.start && end <= |e.source|
                                    then Some(RawSegment(e.source, o.start, end)) else o.node.raw
  {}

  // ----- what a reader of the document sees at any time -----

  /** Level k with its open nodes plugged in, as far as they are not slashdashed. */
  function Plug(docNodes: seq<Node>, opens: seq<OpenNode>, k: nat): seq<Node>
    requires k <= |opens|
    decreases |opens| - k
  {
    KidNodes(docNodes, opens, k) + match Plugged(docNodes, opens, k) case None => [] case Some(n) => [n]
  }

  function Plugged(docNodes: seq<Node>, opens: seq<OpenNode>, k: nat): Option<Node>
    requires k <= |opens|
    decreases |opens| - k, 0
  {
    if k < |opens| && !opens[k].ignored then Some(opens[k].node.(children := Plug(docNodes, opens, k + 1))) else None
  }

  lemma {:induction false} PlugShown(store: seq<Rec>, doc: seq<nat>, node: seq<nat>, docNodes: seq<Node>, opens: seq<OpenNode>, k: nat)
    requires RepTree(store, doc, node, docNodes, opens) && k <= |node|
    ensures Shows(store, Kids(store, doc, node, k), Plug(docNodes, opens, k), Low(node, k), |store|)
    decreases |node| - k
  {
    hide Shows;
    assert RepLevel(store, doc, node, docNodes, opens, k);
    var kids, nodes := Kids(store, doc, node, k), KidNodes(docNodes, opens, k);
    assert nodes + [] == nodes;
    if k < |node| {
      var finished := if opens[k].ignored then kids else kids[..|kids| - 1];
      ShowsFrame(store, store, finished, nodes, Low(node, k), node[k], |store|);
      if !opens[k].ignored {
        PlugShown(store, doc, node, docNodes, opens, k + 1);
        var n := Plugged(docNodes, opens, k).value;
        ShownAs(store, node[k], n, |store|);
        LowBelowNode(node, k);
        ShowsSnoc(store, finished, nodes, node[k], n, Low(node, k), |store|);
        assert finished + [node[k]] == kids;
      }
    }
  }

  lemma LowBelowNode(node: seq<nat>, k: nat)
    requires k < |node| && forall i, j :: 0 <= i < j < |node| ==> node[i] < node[j]
    ensures Low(node, k) <= node[k]
  {}

  lemma {:induction false} SpinePlugs(c: Config, k: nat)
    requires k <= |c.blocks|
    ensures k <= |c.blocks| <= |Opens(c)|
    ensures Spine(c.blocks, Plugged(c.doc, Opens(c), |c.blocks|)) == Spine(c.blocks[..k], Plugged(c.doc, Opens(c), k))
    decreases |c.blocks| - k
  {
    OwnersLength(c.blocks);
    if k < |c.blocks| {
      SpinePlugs(c, k + 1);
      OwnerAt(c.blocks, k);
      assert Opens(c)[k] == c.blocks[k].owner;
      assert c.blocks[..k + 1][..k] == c.blocks[..k];
      var n := c.blocks[k].owner.node;
      assert n.children + [] == n.children;
      assert n.(children := n.children) == n;
    } else {
      assert c.blocks[..k] == c.blocks;
    }
  }

  lemma {:induction false} OwnerAt(blocks: seq<Block>, k: nat)
    requires k < |blocks|
    ensures k < |Owners(blocks)| && Owners(blocks)[k] == blocks[k].owner
    decreases |blocks|
  {
    OwnersLength(blocks);
    if k < |blocks| - 1 {
      OwnerAt(blocks[..|blocks| - 1], k);
    }
  }

  /** Main result: following the pointers from the document shows the machine's tree, finished or not. */
  lemma DocumentShown(k: Fields, c: Config)
    requires Rep(k, c)
    ensures Shows(k.store, k.doc, Visible(c), 0, |k.store|)
  {
    OwnersLength(c.blocks);
    PlugShown(k.store, k.doc, k.node, c.doc, Opens(c), 0);
    SpinePlugs(c, 0);
    InnermostPlugged(c);
    assert c.doc + [] == c.doc;
  }

  lemma InnermostPlugged(c: Config)
    ensures |c.blocks| <= |Opens(c)|
    ensures Plugged(c.doc, Opens(c), |c.blocks|) == if c.phase.Inside? && !c.phase.open.ignored then Some(c.phase.open.node) else None
  {
    OwnersLength(c.blocks);
    var opens, n := Opens(c), |c.blocks|;
    if c.phase.Inside? {
      assert |opens| == n + 1 && opens[n] == c.phase.open;
      var children := c.phase.open.node.children;
      assert Plugged(c.doc, opens, n + 1) == None;
      assert children + [] == children;
      assert Plug(c.doc, opens, n + 1) == children;
      assert c.phase.open.node.(children := children) == c.phase.open.node;
    } else {
      assert |opens| == n;
    }
  }
}
