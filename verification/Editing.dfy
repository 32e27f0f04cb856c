// Editing a parsed document and writing it back: the node that was edited is formatted anew, wherever in it the edit
// was made, and every byte outside it stays as it was.
module Editing {
  import opened Basics
  import opened Tokens
  import opened Documents
  import opened Machine
  import opened Segments
  import opened Generator
  import opened Preserving
  import opened Completeness
  import Properties

  /** The mutators of a node. Names are given as text. */
  datatype Mutation =
    | AddNode(child: Node) | RemoveNode(name: Bytes) | SetChildren(children: seq<Node>)
    | AddArgument(arg: Value) | SetArguments(args: seq<Value>)
    | AddProperty(key: Bytes, value: Value) | DeleteProperty(name: Bytes)
    | SetType(typ: Bytes) | SetName(text: Bytes)

  function IndexOf(nodes: seq<Node>, name: Bytes, i: nat): (k: nat)
    requires i <= |nodes|
    ensures i <= k <= |nodes| && (k < |nodes| ==> KeyText(nodes[k].name.content) == name)
    ensures forall j :: i <= j < k ==> KeyText(nodes[j].name.content) != name
    decreases |nodes| - i
  {
    if i < |nodes| && KeyText(nodes[i].name.content) != name then IndexOf(nodes, name, i + 1) else i
  }

  /** Every mutator that changes something clears the node's raw bytes. */
  function Mutate(n: Node, m: Mutation): Node {
    match m
    case AddNode(child) => n.(children := n.children + [child], raw := None)
    case RemoveNode(name) =>
      var k := IndexOf(n.children, name, 0);
      if k == |n.children| then n else n.(children := n.children[..k] + n.children[k + 1..], raw := None)
    case SetChildren(children) => n.(children := children, raw := None)
    case AddArgument(arg) => n.(args := n.args + [arg], raw := None)
    case SetArguments(args) => n.(args := args, raw := None)
    case AddProperty(key, value) => n.(props := Put(n.props, key, value), raw := None)
    case DeleteProperty(name) => if Properties.Lookup(n.props, name).Some? then n.(props := Properties.Remove(n.props, name), raw := None) else n
    case SetType(typ) => n.(typ := typ, raw := None)
    case SetName(text) => n.(name := Value(Text(text), [], None), raw := None)
  }

  predicate IsPath(nodes: seq<Node>, path: seq<nat>)
    decreases |path|
  {
    path != [] && path[0] < |nodes| && (|path| == 1 || IsPath(nodes[path[0]].children, path[1..]))
  }

  /** One mutation of the node at a path of child numbers; the nodes above it keep their raw bytes. */
  function EditAt(nodes: seq<Node>, path: seq<nat>, m: Mutation): (r: seq<Node>)
    requires IsPath(nodes, path)
    ensures |r| == |nodes| && forall k :: 0 <= k < |r| && k != path[0] ==> r[k] == nodes[k]
    decreases |path|
  {
    var n := nodes[path[0]];
    nodes[path[0] := if |path| == 1 then Mutate(n, m) else n.(children := EditAt(n.children, path[1..], m))]
  }

  /** An edit that changes anything is seen from the top: the node on top of the path is dirty or has a dirty descendant. */
  lemma {:induction false} EditIsSeen(nodes: seq<Node>, path: seq<nat>, m: Mutation)
    requires IsPath(nodes, path)
    ensures var n := EditAt(nodes, path, m)[path[0]];
      n == nodes[path[0]] || n.raw.None? || HasAnyDirtyDescendant(n)
    decreases |path|
  {
    var n := nodes[path[0]];
    if |path| == 1 {
      MutateClears(n, m);
    } else {
      EditIsSeen(n.children, path[1..], m);
      var edited := EditAt(n.children, path[1..], m);
      var k := path[1];
      assert edited[k] == n.children[k] ==> edited == n.children;
    }
  }

  lemma MutateClears(n: Node, m: Mutation)
    ensures Mutate(n, m) == n || Mutate(n, m).raw.None?
  {}

  /** Where a top-level node lies in the source, and what the nodes in front of it are written as. */
  lemma {:induction false} NodeExtent(source: Bytes, nodes: seq<Node>, segs: seq<Segment>, from: nat, to: nat, lo: int, hi: int, k: nat, o: Options)
    requires Chain(segs, from, to) && to <= |source|
    requires Carries(source, nodes, segs) && |nodes| == Kept(segs) && Nested(source, nodes, lo, hi)
    requires o.preserve && !AnyIgnored(segs) && k < |nodes|
    ensures nodes[k].raw.Some?
    ensures var r := nodes[k].raw.value;
      && from <= r.lo <= r.hi <= to
      && NodesOutput(o, nodes[..k]) == source[from..r.lo]
      && NodeOutput(o, nodes[k]) == source[r.lo..r.hi]
    decreases |segs|
  {
    hide NodeOutput, AnyIgnored;
    var j := |segs| - 1;
    var s := segs[j];
    AnyIgnoredSnoc(segs);
    var n := nodes[|nodes| - 1];
    LevelOutput(source, nodes[..|nodes| - 1], segs[..j], from, s.lo, lo, n.raw.value.lo, o);
    if k == |nodes| - 1 {
      CleanOutput(source, n, o);
    } else {
      NodeExtent(source, nodes[..|nodes| - 1], segs[..j], from, s.lo, lo, n.raw.value.lo, k, o);
      assert nodes[..|nodes| - 1][..k] == nodes[..k];
    }
  }

  lemma {:induction false} OutputAppend(o: Options, a: seq<Node>, b: seq<Node>)
    ensures NodesOutput(o, a + b) == NodesOutput(o, a) + NodesOutput(o, b)
    decreases |b|
  {
    hide NodeOutput;
    if b == [] {
      assert a + b == a;
    } else {
      var k := |b| - 1;
      assert (a + b)[..|a + b| - 1] == a + b[..k];
      OutputAppend(o, a, b[..k]);
      Assoc(NodesOutput(o, a), NodesOutput(o, b[..k]), NodeOutput(o, b[k]));
    }
  }

  lemma OutputOne(o: Options, n: Node)
    ensures NodesOutput(o, [n]) == NodeOutput(o, n)
  {
    hide NodeOutput;
    assert [n][..0] == [];
    assert NodesOutput(o, []) + NodeOutput(o, n) == NodeOutput(o, n);
  }

  lemma OutputAround(o: Options, nodes: seq<Node>, k: nat)
    requires k < |nodes|
    ensures NodesOutput(o, nodes) == NodesOutput(o, nodes[..k]) + NodeOutput(o, nodes[k]) + NodesOutput(o, nodes[k + 1..])
  {
    hide NodeOutput, NodesOutput;
    assert nodes == nodes[..k] + [nodes[k]] + nodes[k + 1..];
    OutputAppend(o, nodes[..k] + [nodes[k]], nodes[k + 1..]);
    OutputAppend(o, nodes[..k], [nodes[k]]);
    OutputOne(o, nodes[k]);
  }

  lemma Cancel(a: Bytes, b: Bytes, c: Bytes)
    requires a + b == a + c
    ensures b == c
  {
    assert (a + b)[|a|..] == b && (a + c)[|a|..] == c;
  }

  /** Replacing one top-level node of a parsed document by any node replaces exactly its bytes in the output. */
  lemma ReplacedOutput(e: Env, tokens: seq<Token>, q: nat, d: Config, o: Options, k: nat, m: Node)
    requires q <= |e.source| && Tiles(e.source, tokens, 0, q)
    requires ParseAll(e, tokens) == Some(d) && ClosesAll(e, tokens) && o.preserve && k < |d.doc|
    requires !AnySlashdashAtTop(e, INITIAL, tokens + [EOF_TOKEN])
    ensures d.doc[k].raw.Some?
    ensures var r := d.doc[k].raw.value;
      && r.lo <= r.hi <= |e.source|
      && DocumentOutput(o, ParsedDocument(e, d).(nodes := d.doc[k := m])) == e.source[..r.lo] + NodeOutput(o, m) + e.source[r.hi..]
  {
    hide NodeOutput, NodesOutput, ClosesAll, AnySlashdashAtTop;
    CompleteExactly(e, tokens, d);
    IgnoredIsSlashdashed(e, tokens, d);
    ParseTiled(e, tokens, d, q);
    NodeExtent(e.source, d.doc, d.segments, 0, d.lastEnd, 0, d.lastEnd, k, o);
    LevelOutput(e.source, d.doc, d.segments, 0, d.lastEnd, 0, d.lastEnd, o);
    var r := d.doc[k].raw.value;
    OutputAround(o, d.doc, k);
    Halves(e.source, 0, r.lo, r.hi);
    Halves(e.source, 0, r.hi, d.lastEnd);
    Cancel(e.source[0..r.hi], NodesOutput(o, d.doc[k + 1..]), e.source[r.hi..d.lastEnd]);
    var edited := d.doc[k := m];
    OutputAround(o, edited, k);
    assert edited[..k] == d.doc[..k] && edited[k + 1..] == d.doc[k + 1..];
    Halves(e.source, r.hi, d.lastEnd, |e.source|);
    assert e.source[d.lastEnd..] == e.source[d.lastEnd..|e.source|] && e.source[r.hi..] == e.source[r.hi..|e.source|];
    Assoc(e.source[0..r.lo] + NodeOutput(o, m), e.source[r.hi..d.lastEnd], e.source[d.lastEnd..]);
    assert ParsedDocument(e, d).trailing == e.source[d.lastEnd..];
  }

  /**
   * Main result: an edit that changes anything, at any depth of a parsed document, leads to an output in which the top-level
   * node around it is formatted anew, edit included, and everything outside that node is the source as it was.
   */
  lemma EditedOutput(e: Env, tokens: seq<Token>, q: nat, d: Config, o: Options, path: seq<nat>, m: Mutation)
    requires q <= |e.source| && Tiles(e.source, tokens, 0, q)
    requires ParseAll(e, tokens) == Some(d) && ClosesAll(e, tokens) && o.preserve && IsPath(d.doc, path)
    requires !AnySlashdashAtTop(e, INITIAL, tokens + [EOF_TOKEN])
    requires EditAt(d.doc, path, m)[path[0]] != d.doc[path[0]]
    ensures d.doc[path[0]].raw.Some?
    ensures var r := d.doc[path[0]].raw.value; var n := EditAt(d.doc, path, m)[path[0]];
      && r.lo <= r.hi <= |e.source|
      && DocumentOutput(o, ParsedDocument(e, d).(nodes := EditAt(d.doc, path, m)))
         == e.source[..r.lo] + Render(NodePieces(o, 0, n)) + e.source[r.hi..]
  {
    var edited := EditAt(d.doc, path, m);
    var n := edited[path[0]];
    EditIsSeen(d.doc, path, m);
    assert NodeOutput(o, n) == Render(NodePieces(o, 0, n));
    hide NodeOutput, NodesOutput, Render, NodePieces, EditAt, ClosesAll, AnySlashdashAtTop;
    assert edited == d.doc[path[0] := n];
    ReplacedOutput(e, tokens, q, d, o, path[0], n);
  }
}
