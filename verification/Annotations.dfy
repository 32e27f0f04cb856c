// Trees as the formatting writer shows them: without the annotations of hexadecimal values.
module Annotations {
  import opened Basics
  import opened Documents
  import opened Generator
  import opened RoundTrip
  import opened Printing

  /** What is written of a value. */
  function WrittenValue(v: Value): Value { Value(v.content, if LosesType(v) then [] else v.typ, None) }

  function WrittenValues(vs: seq<Value>): seq<Value> {
    seq(|vs|, i requires 0 <= i < |vs| => WrittenValue(vs[i]))
  }

  function WrittenProps(ps: seq<Prop>): seq<Prop> {
    seq(|ps|, i requires 0 <= i < |ps| => ps[i].(value := WrittenValue(ps[i].value)))
  }

  function Written(n: Node): Node
    decreases n
  {
    Node(EraseValue(n.name), n.typ, WrittenValues(n.args), WrittenProps(n.props), WrittenAll(n.children), None)
  }

  function WrittenAll(nodes: seq<Node>): seq<Node>
    decreases nodes
  {
    if nodes == [] then [] else WrittenAll(nodes[..|nodes| - 1]) + [Written(nodes[|nodes| - 1])]
  }

  /** No value of the tree, at any depth, loses an annotation. */
  predicate Keeps(n: Node)
    decreases n
  {
    && (forall k :: 0 <= k < |n.args| ==> KeepsType(n.args[k]))
    && (forall k :: 0 <= k < |n.props| ==> KeepsType(n.props[k].value))
    && (forall k :: 0 <= k < |n.children| ==> Keeps(n.children[k]))
  }

  lemma {:induction false} WrittenAt(nodes: seq<Node>, k: nat)
    requires k < |nodes|
    ensures |WrittenAll(nodes)| == |nodes| && WrittenAll(nodes)[k] == Written(nodes[k])
    decreases |nodes|
  {
    hide Written;
    WrittenCount(nodes[..|nodes| - 1]);
    if k < |nodes| - 1 { WrittenAt(nodes[..|nodes| - 1], k); }
  }

  lemma {:induction false} WrittenCount(nodes: seq<Node>)
    ensures |WrittenAll(nodes)| == |nodes|
    decreases |nodes|
  {
    hide Written;
    if nodes != [] { WrittenCount(nodes[..|nodes| - 1]); }
  }

  lemma {:induction false} ErasedAt(nodes: seq<Node>, k: nat)
    requires k < |nodes|
    ensures |EraseAll(nodes)| == |nodes| && EraseAll(nodes)[k] == Erase(nodes[k])
    decreases |nodes|
  {
    hide Erase;
    ErasedCount(nodes[..|nodes| - 1]);
    if k < |nodes| - 1 { ErasedAt(nodes[..|nodes| - 1], k); }
  }

  // ----- what is written decides the text -----

  lemma {:induction false} WrittenArgs(o: Options, args: seq<Value>)
    requires o.spelling == SPELLED && !o.preserve
    ensures ArgPieces(o, WrittenValues(args)) == ArgPieces(o, args)
  {
    hide TypePieces;
    if args != [] {
      var k := |args| - 1;
      WrittenArgs(o, args[..k]);
      assert WrittenValues(args)[..k] == WrittenValues(args[..k]);
    }
  }

  lemma {:induction false} WrittenPropPieces(o: Options, props: seq<Prop>)
    requires o.spelling == SPELLED && !o.preserve
    ensures PropPieces(o, WrittenProps(props)) == PropPieces(o, props)
  {
    hide TypePieces, TextPiece, ContentPiece;
    if props != [] {
      var k := |props| - 1;
      WrittenPropPieces(o, props[..k]);
      assert WrittenProps(props)[..k] == WrittenProps(props[..k]);
    }
  }

  lemma {:induction false} WrittenPieces(o: Options, depth: nat, n: Node)
    requires o.spelling == SPELLED && !o.preserve
    ensures NodePieces(o, depth, Written(n)) == NodePieces(o, depth, n)
    decreases n
  {
    hide ArgPieces, PropPieces, NodesPieces, WrittenValues, WrittenProps;
    WrittenArgs(o, n.args);
    WrittenPropPieces(o, n.props);
    WrittenNodesPieces(o, depth + 1, n.children);
    WrittenCount(n.children);
  }

  lemma {:induction false} WrittenNodesPieces(o: Options, depth: nat, nodes: seq<Node>)
    requires o.spelling == SPELLED && !o.preserve
    ensures NodesPieces(o, depth, WrittenAll(nodes)) == NodesPieces(o, depth, nodes)
    decreases nodes
  {
    hide NodePieces, Written;
    if nodes != [] {
      var k := |nodes| - 1;
      WrittenNodesPieces(o, depth, nodes[..k]);
      WrittenPieces(o, depth, nodes[k]);
      var written := WrittenAll(nodes);
      assert written[..|written| - 1] == WrittenAll(nodes[..k]);
    }
  }

  /** Main result: trees of which the same is written have the same text. */
  lemma WrittenDecidesText(o: Options, a: seq<Node>, b: seq<Node>)
    requires o.spelling == SPELLED && !o.preserve && WrittenAll(a) == WrittenAll(b)
    ensures DocumentOutput(o, Document(a, [])) == DocumentOutput(o, Document(b, []))
  {
    hide NodesPieces, WrittenAll, NodesOutput, Render;
    OutputIsRendered(o, a);
    OutputIsRendered(o, b);
    WrittenNodesPieces(o, 0, a);
    WrittenNodesPieces(o, 0, b);
  }

  // ----- what is written is kept -----

  lemma {:induction false} WrittenKeeps(n: Node)
    ensures Keeps(Written(n)) && Erase(Written(n)) == Written(n) && Written(Written(n)) == Written(n)
    decreases n
  {
    WrittenCount(n.children);
    forall k | 0 <= k < |n.children| ensures Keeps(WrittenAll(n.children)[k]) {
      WrittenAt(n.children, k);
      WrittenKeeps(n.children[k]);
    }
    WrittenAllKeep(n.children);
    assert EraseValues(WrittenValues(n.args)) == WrittenValues(n.args) == WrittenValues(WrittenValues(n.args));
    assert EraseProps(WrittenProps(n.props)) == WrittenProps(n.props) == WrittenProps(WrittenProps(n.props));
  }

  lemma {:induction false} WrittenAllKeep(nodes: seq<Node>)
    ensures EraseAll(WrittenAll(nodes)) == WrittenAll(nodes) && WrittenAll(WrittenAll(nodes)) == WrittenAll(nodes)
    decreases nodes
  {
    hide Keeps;
    if nodes != [] {
      var k := |nodes| - 1;
      WrittenAllKeep(nodes[..k]);
      WrittenKeeps(nodes[k]);
      hide Written, Erase;
      var written := WrittenAll(nodes);
      assert written[..|written| - 1] == WrittenAll(nodes[..k]);
    }
  }

  lemma SameValues(args: seq<Value>, props: seq<Prop>)
    ensures WrittenValues(args) == EraseValues(args) <==> forall k :: 0 <= k < |args| ==> KeepsType(args[k])
    ensures WrittenProps(props) == EraseProps(props) <==> forall k :: 0 <= k < |props| ==> KeepsType(props[k].value)
  {
    if WrittenValues(args) == EraseValues(args) {
      forall k | 0 <= k < |args| ensures KeepsType(args[k]) { assert WrittenValues(args)[k] == EraseValues(args)[k]; }
    }
    if WrittenProps(props) == EraseProps(props) {
      forall k | 0 <= k < |props| ensures KeepsType(props[k].value) { assert WrittenProps(props)[k] == EraseProps(props)[k]; }
    }
  }

  /** All of a tree is written exactly when no annotation is lost. */
  lemma {:induction false} KeepsExactly(n: Node)
    ensures Written(n) == Erase(n) <==> Keeps(n)
    decreases n
  {
    SameValues(n.args, n.props);
    hide EraseValues, EraseProps, WrittenValues, WrittenProps, KeepsType;
    KeepsAllExactly(n.children);
  }

  lemma {:induction false} KeepsAllExactly(nodes: seq<Node>)
    ensures WrittenAll(nodes) == EraseAll(nodes) <==> forall k :: 0 <= k < |nodes| ==> Keeps(nodes[k])
    decreases nodes
  {
    hide Written, Erase, Keeps;
    if nodes != [] {
      var k := |nodes| - 1;
      var front := nodes[..k];
      KeepsAllExactly(front);
      KeepsExactly(nodes[k]);
      assert (forall j :: 0 <= j < |nodes| ==> Keeps(nodes[j])) <==> (forall j :: 0 <= j < |front| ==> Keeps(front[j])) && Keeps(nodes[k]) by {
        assert forall j :: 0 <= j < |front| ==> front[j] == nodes[j];
      }
      WrittenCount(front);
      ErasedCount(front);
      assert WrittenAll(nodes) == EraseAll(nodes) <==> WrittenAll(front) == EraseAll(front) && Written(nodes[k]) == Erase(nodes[k]) by {
        assert WrittenAll(nodes)[..k] == WrittenAll(front) && EraseAll(nodes)[..k] == EraseAll(front);
        assert WrittenAll(nodes)[k] == Written(nodes[k]) && EraseAll(nodes)[k] == Erase(nodes[k]);
      }
    }
  }
}
