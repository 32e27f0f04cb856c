// How the parser's parallel stacks and its node store represent a configuration of the machine.
// Nodes are pointers into an allocation-ordered store: a node is both in its parent's child list and
// on the node stack from the moment it is created.
module ParserRep {
  import opened Basics
  import opened Tokens
  import opened Documents
  import opened Machine
  import opened ParserTable

  /** A stored node; its children are pointers. */
  datatype Rec = Rec(name: Option<Value>, typ: Bytes, args: seq<Value>, props: seq<Prop>, children: seq<nat>, raw: Option<RawSegment>)

  const NEW_REC := Rec(None, [], [], [], [], None)

  /** The fields of a ParseContext. */
  datatype Fields = Fields(
    store: seq<Rec>, doc: seq<nat>,
    states: seq<ParserState>, childBlockSeenStack: seq<bool>, state: ParserState, node: seq<nat>,
    ident: Token, typeAnnot: Token, continuation: bool, ignoreNextNode: bool, ignoreNextArgProp: bool,
    ignoreChildren: int, childBlockSeen: bool,
    nodeStartOffsets: seq<nat>, lastNodeEnd: nat, lastNodeEndStack: seq<nat>, nodeIgnored: seq<bool>)

  // ----- flags and stacks -----

  function Container(blocks: seq<Block>): ParserState {
    if blocks == [] then StateDocument else StateChildren
  }

  function OfNodeState(st: NodeState): ParserState {
    match st
    case AtNode => StateNode
    case AtParams => StateNodeParams
    case AtEnd => StateNodeEnd
    case AtArgProp => StateArgProp
    case AtPostWS => StateArgPropPostWS
    case AtPropValue => StatePropertyValue
  }

  function BaseState(c: Config): ParserState {
    match c.phase
    case Between => Container(c.blocks)
    case Inside(_, st, _) => OfNodeState(st)
  }

  function SeenOf(c: Config): bool { c.phase.Inside? && c.phase.seen }

  /** For each open block: the state it was opened under, then its owner's state. */
  function BlockStates(blocks: seq<Block>): seq<ParserState> {
    if blocks == [] then []
    else
      var k := |blocks| - 1;
      BlockStates(blocks[..k]) + [Container(blocks[..k]), OfNodeState(blocks[k].ret)]
  }

  /** Nodes start without a child block, and a node that owns an open block has seen one. */
  function BlockSeen(blocks: seq<Block>): seq<bool> {
    if blocks == [] then [] else BlockSeen(blocks[..|blocks| - 1]) + [false, true]
  }

  function BlockEnds(blocks: seq<Block>): seq<nat> {
    if blocks == [] then [] else BlockEnds(blocks[..|blocks| - 1]) + [blocks[|blocks| - 1].savedEnd]
  }

  function DroppedCount(blocks: seq<Block>): nat {
    if blocks == [] then 0 else DroppedCount(blocks[..|blocks| - 1]) + if blocks[|blocks| - 1].dropped then 1 else 0
  }

  /** The open nodes, outermost first. */
  function Owners(blocks: seq<Block>): seq<OpenNode> {
    if blocks == [] then [] else Owners(blocks[..|blocks| - 1]) + [blocks[|blocks| - 1].owner]
  }

  function Opens(c: Config): seq<OpenNode> {
    Owners(c.blocks) + if c.phase.Inside? then [c.phase.open] else []
  }

  function Starts(os: seq<OpenNode>): seq<nat> { seq(|os|, i requires 0 <= i < |os| => os[i].start) }
  function Ignored(os: seq<OpenNode>): seq<bool> { seq(|os|, i requires 0 <= i < |os| => os[i].ignored) }

  predicate DroppedInnermost(blocks: seq<Block>) {
    forall i :: 0 <= i < |blocks| - 1 ==> blocks[i].dropped ==> blocks[i + 1].dropped
  }

  lemma {:induction false} DroppedIsCounted(blocks: seq<Block>)
    requires DroppedInnermost(blocks)
    ensures DroppedCount(blocks) > 0 <==> InDropped(blocks)
    decreases |blocks|
  {
    if blocks != [] {
      var k := |blocks| - 1;
      DroppedIsCounted(blocks[..k]);
      if k > 0 {
        assert blocks[k - 1].dropped ==> blocks[k - 1 + 1].dropped;
      }
    }
  }

  ghost predicate RepFlags(k: Fields, c: Config) {
    && k.ident == c.ident && k.typeAnnot == c.typ
    && k.continuation == c.cont && k.ignoreNextNode == c.skipNode && k.ignoreNextArgProp == c.skipEntry
    && k.childBlockSeen == SeenOf(c)
    && k.lastNodeEnd == c.lastEnd && k.lastNodeEndStack == BlockEnds(c.blocks)
    && k.ignoreChildren == DroppedCount(c.blocks) && DroppedInnermost(c.blocks)
  }

  /** The state stack: Document, then a pair for each open block, then at most one node state, then at most
      one annotation state. The flags stack runs in parallel. */
  ghost predicate RepStates(k: Fields, c: Config) {
    var node := if c.phase.Inside? then [Container(c.blocks)] else [];
    var flag := if c.phase.Inside? then [false] else [];
    var annotated := !c.annotation.NoAnnotation?;
    && k.states == BlockStates(c.blocks) + node + (if annotated then [BaseState(c)] else [])
    && k.childBlockSeenStack == BlockSeen(c.blocks) + flag + (if annotated then [SeenOf(c)] else [])
    && k.state == (match c.annotation case NoAnnotation => BaseState(c) case Wanted => StateTypeAnnot case Got => StateTypeDone)
  }

  ghost predicate RepNodes(k: Fields, c: Config) {
    && |k.node| == |Opens(c)|
    && k.nodeStartOffsets == Starts(Opens(c))
    && k.nodeIgnored == Ignored(Opens(c))
  }

  // ----- the node store -----

  /** The stored node at id shows the tree n, using only ids from id up to hi. */
  ghost predicate ShowsNode(store: seq<Rec>, id: nat, n: Node, hi: nat)
    decreases n, 0
  {
    && id < hi <= |store|
    && Agrees(store[id], n)
    && Shows(store, store[id].children, n.children, id + 1, hi)
  }

  ghost predicate Agrees(r: Rec, n: Node) {
    r.name == Some(n.name) && r.typ == n.typ && r.args == n.args && r.props == n.props && r.raw == n.raw
  }

  ghost predicate Shows(store: seq<Rec>, ids: seq<nat>, nodes: seq<Node>, lo: nat, hi: nat)
    decreases nodes
  {
    && |ids| == |nodes|
    && forall i :: 0 <= i < |ids| ==> lo <= ids[i] && ShowsNode(store, ids[i], nodes[i], hi)
  }

  /** Only the ids in use matter, and more may be allocated. */
  lemma {:induction false} ShowsFrame(a: seq<Rec>, b: seq<Rec>, ids: seq<nat>, nodes: seq<Node>, lo: nat, hi: nat, hi': nat)
    requires Shows(a, ids, nodes, lo, hi) && hi <= hi' <= |b|
    requires forall i :: lo <= i < hi && i < |a| ==> b[i] == a[i]
    ensures Shows(b, ids, nodes, lo, hi')
    decreases nodes
  {
    forall i | 0 <= i < |ids|
      ensures ShowsNode(b, ids[i], nodes[i], hi')
    {
      ShowsFrame(a, b, a[ids[i]].children, nodes[i].children, ids[i] + 1, hi, hi');
    }
  }

  /** Child list k: the document's for k == 0, else the one of open node k - 1. */
  function Kids(store: seq<Rec>, doc: seq<nat>, node: seq<nat>, k: nat): seq<nat>
    requires k <= |node| && forall i :: 0 <= i < |node| ==> node[i] < |store|
  {
    if k == 0 then doc else store[node[k - 1]].children
  }

  function KidNodes(doc: seq<Node>, opens: seq<OpenNode>, k: nat): seq<Node>
    requires k <= |opens|
  {
    if k == 0 then doc else opens[k - 1].node.children
  }

  function Low(node: seq<nat>, k: nat): nat
    requires k <= |node|
  {
    if k == 0 then 0 else node[k - 1] + 1
  }

  /** Child list k shows the finished children, followed by the open child unless that is slashdashed. */
  ghost predicate RepLevel(store: seq<Rec>, doc: seq<nat>, node: seq<nat>, docNodes: seq<Node>, opens: seq<OpenNode>, k: nat)
    requires k <= |node| == |opens| && forall i :: 0 <= i < |node| ==> node[i] < |store|
  {
    var kids := Kids(store, doc, node, k);
    if k < |node| then
      if opens[k].ignored then Shows(store, kids, KidNodes(docNodes, opens, k), Low(node, k), node[k])
      else
        && kids != [] && kids[|kids| - 1] == node[k]
        && Shows(store, kids[..|kids| - 1], KidNodes(docNodes, opens, k), Low(node, k), node[k])
    else Shows(store, kids, KidNodes(docNodes, opens, k), Low(node, k), |store|)
  }

  ghost predicate Pointers(store: seq<Rec>, node: seq<nat>, opens: seq<OpenNode>) {
    && |node| == |opens|
    && (forall i :: 0 <= i < |node| ==> node[i] < |store| && Agrees(store[node[i]], opens[i].node) && opens[i].node.raw.None?)
    && (forall i, j :: 0 <= i < j < |node| ==> node[i] < node[j])
  }

  ghost predicate RepTree(store: seq<Rec>, doc: seq<nat>, node: seq<nat>, docNodes: seq<Node>, opens: seq<OpenNode>) {
    && Pointers(store, node, opens)
    && forall k :: 0 <= k <= |node| ==> RepLevel(store, doc, node, docNodes, opens, k)
  }

  ghost predicate Rep(k: Fields, c: Config) {
    && RepFlags(k, c) && RepStates(k, c) && RepNodes(k, c)
    && RepTree(k.store, k.doc, k.node, c.doc, Opens(c))
  }

  // ----- what the primitive operations do to the store -----

  ghost function LevelEnd(store: seq<Rec>, node: seq<nat>, k: nat): nat
    requires k <= |node|
  {
    if k < |node| then node[k] else |store|
  }

  ghost predicate SameBetween(a: seq<Rec>, b: seq<Rec>, lo: nat, hi: nat) {
    hi <= |a| && hi <= |b| && forall i :: lo <= i < hi ==> b[i] == a[i]
  }

  /** A level is untouched when its list and the stored nodes it spans are. */
  lemma LevelFrame(a: seq<Rec>, b: seq<Rec>, doc: seq<nat>, node: seq<nat>, docNodes: seq<Node>, opens: seq<OpenNode>, opens': seq<OpenNode>, k: nat)
    requires k <= |node| == |opens| == |opens'|
    requires forall i :: 0 <= i < |node| ==> node[i] < |a| && node[i] < |b|
    requires RepLevel(a, doc, node, docNodes, opens, k)
    requires Kids(b, doc, node, k) == Kids(a, doc, node, k) && KidNodes(docNodes, opens', k) == KidNodes(docNodes, opens, k)
    requires k < |node| ==> opens'[k].ignored == opens[k].ignored
    requires k == |node| ==> |b| == |a|
    requires SameBetween(a, b, Low(node, k), LevelEnd(a, node, k))
    ensures RepLevel(b, doc, node, docNodes, opens', k)
  {
    var kids := Kids(a, doc, node, k);
    var finished := if k < |node| && !opens[k].ignored then kids[..|kids| - 1] else kids;
    ShowsFrame(a, b, finished, KidNodes(docNodes, opens, k), Low(node, k), LevelEnd(a, node, k), LevelEnd(a, node, k));
  }

  /** The innermost open node gets new entries. */
  lemma EntriesTree(store: seq<Rec>, doc: seq<nat>, node: seq<nat>, docNodes: seq<Node>, opens: seq<OpenNode>, r: Rec, n: Node)
    requires RepTree(store, doc, node, docNodes, opens) && node != []
    requires Agrees(r, n) && n.raw.None?
    requires r.children == store[node[|node| - 1]].children && n.children == opens[|opens| - 1].node.children
    ensures var t := |node| - 1;
            RepTree(store[node[t] := r], doc, node, docNodes, opens[t := opens[t].(node := n)])
  {
    hide Shows;
    var t := |node| - 1;
    var store' := store[node[t] := r];
    var opens' := opens[t := opens[t].(node := n)];
    forall k | 0 <= k <= |node|
      ensures RepLevel(store', doc, node, docNodes, opens', k)
    {
      LevelFrame(store, store', doc, node, docNodes, opens, opens', k);
    }
  }

  /** Gives pointer id to its parent's child list. */
  function Linked(store: seq<Rec>, node: seq<nat>, id: nat): seq<Rec>
    requires forall i :: 0 <= i < |node| ==> node[i] < |store|
  {
    if node == [] then store
    else
      var p := node[|node| - 1];
      store[p := store[p].(children := store[p].children + [id])]
  }

  /** The store and the document list after a node r is allocated and, unless slashdashed, linked. */
  function WithStarted(store: seq<Rec>, node: seq<nat>, r: Rec, ignored: bool): seq<Rec>
    requires forall i :: 0 <= i < |node| ==> node[i] < |store|
  {
    (if ignored then store else Linked(store, node, |store|)) + [r]
  }

  function StartedDoc(store: seq<Rec>, doc: seq<nat>, node: seq<nat>, ignored: bool): seq<nat> {
    if !ignored && node == [] then doc + [|store|] else doc
  }

  lemma StartedStore(store: seq<Rec>, node: seq<nat>, r: Rec, ignored: bool)
    requires forall i :: 0 <= i < |node| ==> node[i] < |store|
    ensures var b := WithStarted(store, node, r, ignored);
            && |b| == |store| + 1 && b[|store|] == r
            && (forall i :: 0 <= i < |store| && (node != [] ==> i != node[|node| - 1]) ==> b[i] == store[i])
            && (node != [] ==>
                  var p := node[|node| - 1];
                  b[p] == store[p].(children := store[p].children + if ignored then [] else [|store|]))
  {
    if node != [] && ignored {
      var p := node[|node| - 1];
      assert store[p].children + [] == store[p].children;
    }
  }

  lemma StartLevel(store: seq<Rec>, doc: seq<nat>, node: seq<nat>, docNodes: seq<Node>, opens: seq<OpenNode>, r: Rec, o: OpenNode, k: nat)
    requires RepTree(store, doc, node, docNodes, opens) && k <= |node| + 1
    requires r.children == [] && o.node.children == []
    ensures forall i :: 0 <= i < |node + [|store|]| ==> (node + [|store|])[i] < |WithStarted(store, node, r, o.ignored)|
    ensures RepLevel(WithStarted(store, node, r, o.ignored), StartedDoc(store, doc, node, o.ignored), node + [|store|], docNodes, opens + [o], k)
  {
    hide Shows, WithStarted;
    StartedStore(store, node, r, o.ignored);
    var id, n := |store|, |node|;
    var b := WithStarted(store, node, r, o.ignored);
    var node', opens' := node + [id], opens + [o];
    assert node'[..n] == node && opens'[..n] == opens;
    assert RepLevel(store, doc, node, docNodes, opens, if k <= n then k else 0);
    if k < n {
      LevelGrows(store, b, doc, StartedDoc(store, doc, node, o.ignored), node, node', docNodes, opens, opens', k);
    } else if k == n {
      TopLevelGrows(store, b, doc, StartedDoc(store, doc, node, o.ignored), node, node', docNodes, opens, opens');
    } else {
      NoKids(b, id + 1, |b|);
      assert node'[n] == id && opens'[n] == o;
    }
  }

  /** A node is allocated, linked to its parent unless slashdashed, and pushed. */
  lemma StartTree(store: seq<Rec>, doc: seq<nat>, node: seq<nat>, docNodes: seq<Node>, opens: seq<OpenNode>, r: Rec, o: OpenNode)
    requires RepTree(store, doc, node, docNodes, opens)
    requires Agrees(r, o.node) && o.node.raw.None? && r.children == [] && o.node.children == []
    ensures RepTree(WithStarted(store, node, r, o.ignored), StartedDoc(store, doc, node, o.ignored), node + [|store|], docNodes, opens + [o])
  {
    hide RepLevel, WithStarted;
    StartedStore(store, node, r, o.ignored);
    var b, node', opens' := WithStarted(store, node, r, o.ignored), node + [|store|], opens + [o];
    assert forall i :: 0 <= i < |node'| ==> node'[i] < |b| && Agrees(b[node'[i]], opens'[i].node) && opens'[i].node.raw.None?;
    forall k | 0 <= k <= |node'|
      ensures RepLevel(b, StartedDoc(store, doc, node, o.ignored), node', docNodes, opens', k)
    {
      StartLevel(store, doc, node, docNodes, opens, r, o, k);
    }
  }

  lemma NoKids(store: seq<Rec>, lo: nat, hi: nat)
    ensures Shows(store, [], [], lo, hi)
  {}

  /** A level below the top one does not see the new node. */
  lemma LevelGrows(a: seq<Rec>, b: seq<Rec>, doc: seq<nat>, doc': seq<nat>, node: seq<nat>, node': seq<nat>, docNodes: seq<Node>,
                   opens: seq<OpenNode>, opens': seq<OpenNode>, k: nat)
    requires k < |node| == |opens| && |node'| == |opens'| == |node| + 1 && node'[..|node|] == node
    requires opens'[..|node|] == opens
    requires (forall i :: 0 <= i < |node| ==> node[i] < |a|) && (forall i :: 0 <= i < |node'| ==> node'[i] < |b|)
    requires forall i, j :: 0 <= i < j < |node| ==> node[i] < node[j]
    requires RepLevel(a, doc, node, docNodes, opens, k)
    requires |b| >= |a| && (forall i :: 0 <= i < |a| && (node != [] ==> i != node[|node| - 1]) ==> b[i] == a[i])
    requires node != [] ==> doc' == doc
    ensures RepLevel(b, doc', node', docNodes, opens', k)
  {
    assert node'[k] == node[k] && opens'[k] == opens[k];
    if k > 0 {
      assert node'[k - 1] == node[k - 1] && opens'[k - 1] == opens[k - 1];
      assert node[k - 1] < node[|node| - 1];
    }
    var kids := Kids(a, doc, node, k);
    var finished := if !opens[k].ignored then kids[..|kids| - 1] else kids;
    ShowsFrame(a, b, finished, KidNodes(docNodes, opens, k), Low(node, k), node[k], node[k]);
  }

  /** The top level gets the new node as its open child, unless that is slashdashed. */
  lemma TopLevelGrows(a: seq<Rec>, b: seq<Rec>, doc: seq<nat>, doc': seq<nat>, node: seq<nat>, node': seq<nat>, docNodes: seq<Node>,
                      opens: seq<OpenNode>, opens': seq<OpenNode>)
    requires |node| == |opens| && |node'| == |opens'| == |node| + 1 && node'[..|node|] == node && opens'[..|node|] == opens
    requires (forall i :: 0 <= i < |node| ==> node[i] < |a|) && (forall i :: 0 <= i < |node'| ==> node'[i] < |b|)
    requires RepLevel(a, doc, node, docNodes, opens, |node|)
    requires node'[|node|] == |a| < |b|
    requires forall i :: Low(node, |node|) <= i < |a| ==> b[i] == a[i]
    requires Kids(b, doc', node', |node|) == Kids(a, doc, node, |node|) + if opens'[|node|].ignored then [] else [|a|]
    ensures RepLevel(b, doc', node', docNodes, opens', |node|)
  {
    var n := |node|;
    if n > 0 {
      assert node'[n - 1] == node[n - 1] && opens'[n - 1] == opens[n - 1];
    }
    var kids, kids' := Kids(a, doc, node, n), Kids(b, doc', node', n);
    assert (if opens'[n].ignored then kids' else kids'[..|kids'| - 1]) == kids;
    ShowsFrame(a, b, kids, KidNodes(docNodes, opens, n), Low(node, n), |a|, |a|);
  }

  /** The open nodes and the finished top-level nodes after the innermost one is finished as n. */
  function Popped(opens: seq<OpenNode>, n: Node): seq<OpenNode>
    requires opens != []
  {
    var t := |opens| - 1;
    if !opens[t].ignored && t > 0 then opens[..t][t - 1 := WithChild(opens[t - 1], n)] else opens[..t]
  }

  function PoppedDoc(docNodes: seq<Node>, opens: seq<OpenNode>, n: Node): seq<Node>
    requires opens != []
  {
    if !opens[|opens| - 1].ignored && |opens| == 1 then docNodes + [n] else docNodes
  }

  lemma EndLevel(store: seq<Rec>, doc: seq<nat>, node: seq<nat>, docNodes: seq<Node>, opens: seq<OpenNode>, n: Node, r: Rec, k: nat)
    requires RepTree(store, doc, node, docNodes, opens) && k < |node| - 1
    ensures var t := |node| - 1;
            RepLevel(store[node[t] := r], doc, node[..t], PoppedDoc(docNodes, opens, n), Popped(opens, n), k)
  {
    hide Shows;
    var t := |node| - 1;
    var b := store[node[t] := r];
    assert RepLevel(store, doc, node, docNodes, opens, k);
    var kids := Kids(store, doc, node, k);
    assert Kids(b, doc, node[..t], k) == kids;
    assert KidNodes(PoppedDoc(docNodes, opens, n), Popped(opens, n), k) == KidNodes(docNodes, opens, k);
    var finished := if !opens[k].ignored then kids[..|kids| - 1] else kids;
    ShowsFrame(store, b, finished, KidNodes(docNodes, opens, k), Low(node, k), node[k], node[k]);
  }

  lemma EndTopLevel(store: seq<Rec>, doc: seq<nat>, node: seq<nat>, docNodes: seq<Node>, opens: seq<OpenNode>, n: Node, r: Rec)
    requires RepTree(store, doc, node, docNodes, opens) && node != []
    requires Agrees(r, n) && r.children == store[node[|node| - 1]].children && n.children == opens[|opens| - 1].node.children
    ensures var t := |node| - 1;
            RepLevel(store[node[t] := r], doc, node[..t], PoppedDoc(docNodes, opens, n), Popped(opens, n), t)
  {
    hide Shows;
    var t := |node| - 1;
    var b := store[node[t] := r];
    assert RepLevel(store, doc, node, docNodes, opens, t) && RepLevel(store, doc, node, docNodes, opens, t + 1);
    var kids := Kids(store, doc, node, t);
    var nodes := KidNodes(docNodes, opens, t);
    assert Kids(b, doc, node[..t], t) == kids;
    var finished := if !opens[t].ignored then kids[..|kids| - 1] else kids;
    ShowsFrame(store, b, finished, nodes, Low(node, t), node[t], |store|);
    if !opens[t].ignored {
      ShowsFrame(store, b, r.children, n.children, node[t] + 1, |store|, |store|);
      assert ShowsNode(b, node[t], n, |store|) by { ShownAs(b, node[t], n, |store|); }
      ShowsSnoc(b, finished, nodes, node[t], n, Low(node, t), |store|);
      assert finished + [node[t]] == kids;
    }
    assert KidNodes(PoppedDoc(docNodes, opens, n), Popped(opens, n), t) == nodes + if opens[t].ignored then [] else [n];
    assert nodes + [] == nodes;
  }

  lemma ShownAs(store: seq<Rec>, id: nat, n: Node, hi: nat)
    requires id < hi <= |store| && Agrees(store[id], n) && Shows(store, store[id].children, n.children, id + 1, hi)
    ensures ShowsNode(store, id, n, hi)
  {}

  /** The innermost open node gets its raw segment and is popped; it stays where it was linked. */
  lemma EndTree(store: seq<Rec>, doc: seq<nat>, node: seq<nat>, docNodes: seq<Node>, opens: seq<OpenNode>, n: Node)
    requires RepTree(store, doc, node, docNodes, opens) && node != []
    requires n == opens[|opens| - 1].node.(raw := n.raw)
    ensures var t := |node| - 1;
            RepTree(store[node[t] := store[node[t]].(raw := n.raw)], doc, node[..t], PoppedDoc(docNodes, opens, n), Popped(opens, n))
  {
    hide RepLevel;
    var t := |node| - 1;
    var r := store[node[t]].(raw := n.raw);
    var b := store[node[t] := r];
    forall i | 0 <= i < t
      ensures Agrees(b[node[i]], Popped(opens, n)[i].node) && Popped(opens, n)[i].node.raw.None?
    {
      assert Agrees(store[node[i]], opens[i].node);
    }
    assert Pointers(b, node[..t], Popped(opens, n));
    forall k | 0 <= k <= t
      ensures RepLevel(b, doc, node[..t], PoppedDoc(docNodes, opens, n), Popped(opens, n), k)
    {
      if k < t {
        EndLevel(store, doc, node, docNodes, opens, n, r, k);
      } else {
        EndTopLevel(store, doc, node, docNodes, opens, n, r);
      }
    }
  }

  function WithChild(o: OpenNode, n: Node): OpenNode {
    o.(node := o.node.(children := o.node.children + [n]))
  }

  lemma ShowsSnoc(store: seq<Rec>, ids: seq<nat>, nodes: seq<Node>, id: nat, n: Node, lo: nat, hi: nat)
    requires Shows(store, ids, nodes, lo, hi) && lo <= id && ShowsNode(store, id, n, hi)
    ensures Shows(store, ids + [id], nodes + [n], lo, hi)
  {
    forall i | 0 <= i < |ids + [id]|
      ensures lo <= (ids + [id])[i] && ShowsNode(store, (ids + [id])[i], (nodes + [n])[i], hi)
    {
      if i < |ids| {
        assert (ids + [id])[i] == ids[i] && (nodes + [n])[i] == nodes[i];
      }
    }
  }
}
