// Editing sessions: edits through nodes and edits through their values, in any order and at any depth, and what of them
// is written.
module Sessions {
  import opened Basics
  import opened Tokens
  import opened Documents
  import opened Machine
  import opened Segments
  import opened Generator
  import opened Preserving
  import opened Completeness
  import opened Editing
  import Printing

  // ----- edits through a value -----

  /** The values a node holds. */
  datatype Slot = NameSlot | ArgSlot(index: nat) | PropSlot(index: nat)

  /** The setters of a value. How a number is spelled under another flag is not modelled, so it comes with the change. */
  datatype Change = NewContent(content: Content) | NewType(typ: Bytes) | NewFlag(flag: Flag, id: TokenID, spelling: Bytes)

  predicate HasSlot(n: Node, slot: Slot) {
    match slot
    case NameSlot => true
    case ArgSlot(i) => i < |n.args|
    case PropSlot(i) => i < |n.props|
  }

  function ValueIn(n: Node, slot: Slot): Value
    requires HasSlot(n, slot)
  {
    match slot
    case NameSlot => n.name
    case ArgSlot(i) => n.args[i]
    case PropSlot(i) => n.props[i].value
  }

  /** A setter clears the raw bytes of the value, and of nothing else. */
  function Changed(v: Value, change: Change): Value {
    match change
    case NewContent(content) => v.(content := content, raw := None)
    case NewType(typ) => v.(typ := typ, raw := None)
    case NewFlag(flag, id, spelling) => v.(content := Respelled(v.content, id, spelling), flag := flag, raw := None)
  }

  /** Only numbers are spelled by their flag. */
  function Respelled(c: Content, id: TokenID, spelling: Bytes): Content {
    if c.Literal? && (c.id.Decimal? || c.id.Hexadecimal? || c.id.Octal? || c.id.Binary?) then Literal(id, spelling) else c
  }

  function PutValue(n: Node, slot: Slot, v: Value): Node
    requires HasSlot(n, slot)
  {
    match slot
    case NameSlot => n.(name := v)
    case ArgSlot(i) => n.(args := n.args[i := v])
    case PropSlot(i) => n.(props := n.props[i := n.props[i].(value := v)])
  }

  predicate IsSlotPath(nodes: seq<Node>, path: seq<nat>, slot: Slot)
    decreases |path|
  {
    && path != [] && path[0] < |nodes|
    && if |path| == 1 then HasSlot(nodes[path[0]], slot) else IsSlotPath(nodes[path[0]].children, path[1..], slot)
  }

  /** The value in a slot of the node at a path. */
  function ValueAt(nodes: seq<Node>, path: seq<nat>, slot: Slot): Value
    requires IsSlotPath(nodes, path, slot)
    decreases |path|
  {
    var n := nodes[path[0]];
    if |path| == 1 then ValueIn(n, slot) else ValueAt(n.children, path[1..], slot)
  }

  /** One value put into a slot of the node at a path. */
  function PutValueAt(nodes: seq<Node>, path: seq<nat>, slot: Slot, v: Value): (r: seq<Node>)
    requires IsSlotPath(nodes, path, slot)
    ensures |r| == |nodes| && forall k :: 0 <= k < |r| && k != path[0] ==> r[k] == nodes[k]
    decreases |path|
  {
    var n := nodes[path[0]];
    nodes[path[0] := if |path| == 1 then PutValue(n, slot, v) else n.(children := PutValueAt(n.children, path[1..], slot, v))]
  }

  function ChangeAt(nodes: seq<Node>, path: seq<nat>, slot: Slot, change: Change): (r: seq<Node>)
    requires IsSlotPath(nodes, path, slot)
    ensures |r| == |nodes| && forall k :: 0 <= k < |r| && k != path[0] ==> r[k] == nodes[k]
  {
    PutValueAt(nodes, path, slot, Changed(ValueAt(nodes, path, slot), change))
  }

  /** The node itself or a descendant has lost its raw bytes. */
  predicate Dirty(n: Node) { n.raw.None? || HasAnyDirtyDescendant(n) }

  /** An edit through a value, at any depth, makes no node dirty and no node clean. */
  lemma {:induction false} ValueEditKeepsDirt(nodes: seq<Node>, path: seq<nat>, slot: Slot, v: Value)
    requires IsSlotPath(nodes, path, slot)
    ensures var r := PutValueAt(nodes, path, slot, v);
      forall k :: 0 <= k < |nodes| ==> r[k].raw == nodes[k].raw && HasAnyDirtyDescendant(r[k]) == HasAnyDirtyDescendant(nodes[k])
    decreases |path|
  {
    if |path| > 1 {
      var n := nodes[path[0]];
      ValueEditKeepsDirt(n.children, path[1..], slot, v);
      SameDirt(n.children, PutValueAt(n.children, path[1..], slot, v));
    }
  }

  lemma SameDirt(a: seq<Node>, b: seq<Node>)
    requires |a| == |b|
    requires forall k :: 0 <= k < |a| ==> a[k].raw == b[k].raw && HasAnyDirtyDescendant(a[k]) == HasAnyDirtyDescendant(b[k])
    ensures (exists k :: 0 <= k < |a| && Dirty(a[k])) <==> (exists k :: 0 <= k < |b| && Dirty(b[k]))
  {
    hide HasAnyDirtyDescendant;
    if k :| 0 <= k < |a| && Dirty(a[k]) { assert Dirty(b[k]); }
    if k :| 0 <= k < |b| && Dirty(b[k]) { assert Dirty(a[k]); }
  }

  lemma OutputOfNode(o: Options, n: Node)
    ensures NodeOutput(o, n) == if o.preserve && !Dirty(n) then n.raw.value.Text() else Render(NodePieces(o, 0, n))
  {
    hide Render, NodePieces, HasAnyDirtyDescendant;
  }

  /**
   * Main result: an edit through a value leaves the output byte for byte as it was if the top-level node around it is clean
   * and formatting is preserved; and otherwise that node is formatted anew, edit included, in its place.
   */
  lemma ValueEditOutput(o: Options, doc: Document, path: seq<nat>, slot: Slot, change: Change)
    requires IsSlotPath(doc.nodes, path, slot)
    ensures var k := path[0]; var r := ChangeAt(doc.nodes, path, slot, change);
      if o.preserve && !Dirty(doc.nodes[k]) then DocumentOutput(o, doc.(nodes := r)) == DocumentOutput(o, doc)
      else NodesOutput(o, r) == NodesOutput(o, doc.nodes[..k]) + Render(NodePieces(o, 0, r[k])) + NodesOutput(o, doc.nodes[k + 1..])
  {
    hide Render, NodePieces, NodesOutput, NodeOutput, HasAnyDirtyDescendant, PutValueAt;
    var nodes := doc.nodes;
    var k := path[0];
    var r := ChangeAt(nodes, path, slot, change);
    ValueEditKeepsDirt(nodes, path, slot, Changed(ValueAt(nodes, path, slot), change));
    OutputOfNode(o, nodes[k]);
    OutputOfNode(o, r[k]);
    OutputAround(o, nodes, k);
    OutputAround(o, r, k);
    assert r[..k] == nodes[..k] && r[k + 1..] == nodes[k + 1..];
  }

  // ----- how long the formatted text is -----

  /** What is written for the value in a slot. */
  function SlotPieces(o: Options, slot: Slot, v: Value): seq<Piece> {
    if slot.NameSlot? then TypePieces(o, v.typ) + [o.spelling.name(v)] else ValuePieces(o, v)
  }

  function Size(pieces: seq<Piece>): nat { |Render(pieces)| }

  lemma SizeAppend(a: seq<Piece>, b: seq<Piece>)
    ensures Size(a + b) == Size(a) + Size(b)
  {
    RenderAppend(a, b);
  }

  lemma {:induction false} ArgsSize(o: Options, args: seq<Value>, i: nat, v: Value)
    requires i < |args|
    ensures Size(ArgPieces(o, args[i := v])) + Size(ValuePieces(o, args[i])) == Size(ArgPieces(o, args)) + Size(ValuePieces(o, v))
    decreases |args|
  {
    hide Size, ValuePieces;
    var k := |args| - 1;
    var b := args[i := v];
    SizeAppend(ArgPieces(o, args[..k]) + [SPACE], ValuePieces(o, args[k]));
    SizeAppend(ArgPieces(o, b[..k]) + [SPACE], ValuePieces(o, b[k]));
    SizeAppend(ArgPieces(o, args[..k]), [SPACE]);
    SizeAppend(ArgPieces(o, b[..k]), [SPACE]);
    if i < k {
      ArgsSize(o, args[..k], i, v);
      assert args[..k][i := v] == b[..k];
    } else {
      assert args[..k] == b[..k];
    }
  }

  lemma {:induction false} PropsSize(o: Options, props: seq<Prop>, i: nat, v: Value)
    requires i < |props|
    ensures Size(PropPieces(o, props[i := props[i].(value := v)])) + Size(ValuePieces(o, props[i].value))
      == Size(PropPieces(o, props)) + Size(ValuePieces(o, v))
    decreases |props|
  {
    hide Size, ValuePieces;
    var k := |props| - 1;
    var b := props[i := props[i].(value := v)];
    var key := [SPACE, o.spelling.key(props[k].key), ASSIGN];
    SizeAppend(PropPieces(o, props[..k]) + key, ValuePieces(o, props[k].value));
    SizeAppend(PropPieces(o, b[..k]) + key, ValuePieces(o, b[k].value));
    SizeAppend(PropPieces(o, props[..k]), key);
    SizeAppend(PropPieces(o, b[..k]), key);
    if i < k {
      PropsSize(o, props[..k], i, v);
      assert props[..k][i := props[i].(value := v)] == b[..k];
    } else {
      assert props[..k] == b[..k];
    }
  }

  lemma {:induction false} NodesSize(o: Options, depth: nat, nodes: seq<Node>, i: nat, n: Node)
    requires i < |nodes|
    ensures Size(NodesPieces(o, depth, nodes[i := n])) + Size(NodePieces(o, depth, nodes[i]))
      == Size(NodesPieces(o, depth, nodes)) + Size(NodePieces(o, depth, n))
    decreases |nodes|
  {
    hide Size, NodePieces;
    var k := |nodes| - 1;
    var b := nodes[i := n];
    SizeAppend(NodesPieces(o, depth, nodes[..k]), NodePieces(o, depth, nodes[k]));
    SizeAppend(NodesPieces(o, depth, b[..k]), NodePieces(o, depth, b[k]));
    if i < k {
      NodesSize(o, depth, nodes[..k], i, n);
      assert nodes[..k][i := n] == b[..k];
    } else {
      assert nodes[..k] == b[..k];
    }
  }

  /** The parts of a formatted node. */
  lemma NodeSize(o: Options, depth: nat, n: Node)
    ensures Size(NodePieces(o, depth, n)) == Size(Indentation(o, depth)) + Size(HeadPieces(o, n)) + Size(ArgPieces(o, n.args))
      + Size(PropPieces(o, n.props)) + Size(BlockPieces(o, depth, n)) + Size([LINE_FEED])
  {
    hide Size, Indentation, HeadPieces, ArgPieces, PropPieces, BlockPieces;
    var a, b, c, d := Indentation(o, depth), HeadPieces(o, n), ArgPieces(o, n.args), PropPieces(o, n.props);
    var f := BlockPieces(o, depth, n);
    assert NodePieces(o, depth, n) == a + b + c + d + f + [LINE_FEED];
    SizeAppend(a + b + c + d + f, [LINE_FEED]);
    SizeAppend(a + b + c + d, f);
    SizeAppend(a + b + c, d);
    SizeAppend(a + b, c);
    SizeAppend(a, b);
  }

  lemma HeadSize(o: Options, n: Node)
    ensures Size(HeadPieces(o, n)) == Size(TypePieces(o, n.typ)) + Size(SlotPieces(o, NameSlot, n.name))
  {
    hide Size, TypePieces;
    assert HeadPieces(o, n) == TypePieces(o, n.typ) + SlotPieces(o, NameSlot, n.name);
    SizeAppend(TypePieces(o, n.typ), SlotPieces(o, NameSlot, n.name));
  }

  /** The part of a block that does not depend on the nodes in it. */
  function BlockMarks(o: Options, depth: nat): nat {
    Size([SPACE, OPEN, LINE_FEED]) + Size(Indentation(o, depth) + [SHUT])
  }

  lemma BlockSize(o: Options, depth: nat, n: Node)
    ensures n.children != [] ==> Size(BlockPieces(o, depth, n)) == BlockMarks(o, depth) + Size(NodesPieces(o, depth + 1, n.children))
    ensures n.children == [] ==> BlockPieces(o, depth, n) == []
  {
    hide Size, NodesPieces, Indentation;
    if n.children != [] {
      var kids, tail := NodesPieces(o, depth + 1, n.children), Indentation(o, depth) + [SHUT];
      assert BlockPieces(o, depth, n) == [SPACE, OPEN, LINE_FEED] + kids + tail;
      SizeAppend([SPACE, OPEN, LINE_FEED] + kids, tail);
      SizeAppend([SPACE, OPEN, LINE_FEED], kids);
    }
  }

  /** A value put into a slot changes the length of the node's text by what the value itself is longer. */
  lemma PutValueSize(o: Options, depth: nat, n: Node, slot: Slot, v: Value)
    requires HasSlot(n, slot)
    ensures Size(NodePieces(o, depth, PutValue(n, slot, v))) + Size(SlotPieces(o, slot, ValueIn(n, slot)))
      == Size(NodePieces(o, depth, n)) + Size(SlotPieces(o, slot, v))
  {
    hide Size, NodePieces, HeadPieces, ArgPieces, PropPieces, BlockPieces, ValuePieces, TypePieces, Indentation;
    var m := PutValue(n, slot, v);
    NodeSize(o, depth, n);
    NodeSize(o, depth, m);
    HeadSize(o, n);
    HeadSize(o, m);
    SameBlock(o, depth, n, m);
    match slot
    case NameSlot =>
    case ArgSlot(i) => ArgsSize(o, n.args, i, v);
    case PropSlot(i) => PropsSize(o, n.props, i, v);
  }

  lemma SameBlock(o: Options, depth: nat, n: Node, m: Node)
    requires n.children == m.children
    ensures BlockPieces(o, depth, n) == BlockPieces(o, depth, m)
  {
    hide NodesPieces, Indentation;
  }

  lemma {:induction false} PutValueAtSize(o: Options, depth: nat, nodes: seq<Node>, path: seq<nat>, slot: Slot, v: Value)
    requires IsSlotPath(nodes, path, slot)
    ensures var k := path[0];
      Size(NodePieces(o, depth, PutValueAt(nodes, path, slot, v)[k])) + Size(SlotPieces(o, slot, ValueAt(nodes, path, slot)))
      == Size(NodePieces(o, depth, nodes[k])) + Size(SlotPieces(o, slot, v))
    decreases |path|
  {
    hide Size, NodePieces, SlotPieces, HeadPieces, ArgPieces, PropPieces, BlockPieces, Indentation, BlockMarks;
    var n := nodes[path[0]];
    if |path| == 1 {
      PutValueSize(o, depth, n, slot, v);
    } else {
      var kids := PutValueAt(n.children, path[1..], slot, v);
      var m := n.(children := kids);
      PutValueAtSize(o, depth + 1, n.children, path[1..], slot, v);
      NodesSize(o, depth + 1, n.children, path[1], kids[path[1]]);
      assert n.children[path[1] := kids[path[1]]] == kids;
      NodeSize(o, depth, n);
      NodeSize(o, depth, m);
      BlockSize(o, depth, n);
      BlockSize(o, depth, m);
      SameHeadPieces(o, n, m);
    }
  }

  lemma SameHeadPieces(o: Options, n: Node, m: Node)
    requires n.name == m.name && n.typ == m.typ
    ensures HeadPieces(o, n) == HeadPieces(o, m)
  {}

  // ----- when an edit is written -----

  /** Two texts that are written at different lengths wherever they are put. */
  lemma LengthsDiffer(o: Options, slot: Slot, v: Value)
    requires o.spelling == Printing.SPELLED
    ensures Size(SlotPieces(o, slot, Changed(v, NewContent(Text([]))))) != Size(SlotPieces(o, slot, Changed(v, NewContent(Text([0x41])))))
  {
    hide Size, TypePieces;
    var a, b := Changed(v, NewContent(Text([]))), Changed(v, NewContent(Text([0x41])));
    var p := if slot.NameSlot? then o.spelling.name(a) else o.spelling.value(a);
    var q := if slot.NameSlot? then o.spelling.name(b) else o.spelling.value(b);
    var typ := if slot.NameSlot? then v.typ else ShownType(o, a);
    SizeAppend(TypePieces(o, typ), [p]);
    SizeAppend(TypePieces(o, typ), [q]);
    SizeOfOne(p);
    SizeOfOne(q);
    SpelledLengths();
  }

  lemma SizeOfOne(p: Piece)
    ensures Size([p]) == |p.data|
  {
    Printing.RenderOnePiece(p);
  }

  lemma SpelledLengths()
    ensures |Printing.ContentPiece(Text([])).data| != |Printing.ContentPiece(Text([0x41])).data|
    ensures |Printing.NamePiece(Text([])).data| != |Printing.NamePiece(Text([0x41])).data|
  {}

  /**
   * Main result: some change through a value shows in the output exactly when formatting is not preserved or the top-level
   * node around the value has been made dirty before.
   */
  lemma ValueEditIsWrittenIff(o: Options, doc: Document, path: seq<nat>, slot: Slot)
    requires IsSlotPath(doc.nodes, path, slot) && o.spelling == Printing.SPELLED
    ensures (exists change :: DocumentOutput(o, doc.(nodes := ChangeAt(doc.nodes, path, slot, change))) != DocumentOutput(o, doc))
      <==> !o.preserve || Dirty(doc.nodes[path[0]])
  {
    hide NodesOutput, NodePieces, Render, ChangeAt, SlotPieces, Dirty;
    var nodes := doc.nodes;
    if !o.preserve || Dirty(nodes[path[0]]) {
      var a, b := NewContent(Text([])), NewContent(Text([0x41]));
      ValueEditOutput(o, doc, path, slot, a);
      ValueEditOutput(o, doc, path, slot, b);
      ChangeSize(o, nodes, path, slot, a);
      ChangeSize(o, nodes, path, slot, b);
      LengthsDiffer(o, slot, ValueAt(nodes, path, slot));
      assert |DocumentOutput(o, doc.(nodes := ChangeAt(nodes, path, slot, a)))| != |DocumentOutput(o, doc.(nodes := ChangeAt(nodes, path, slot, b)))|;
    } else {
      forall change ensures DocumentOutput(o, doc.(nodes := ChangeAt(nodes, path, slot, change))) == DocumentOutput(o, doc) {
        ValueEditOutput(o, doc, path, slot, change);
      }
    }
  }

  lemma ChangeSize(o: Options, nodes: seq<Node>, path: seq<nat>, slot: Slot, change: Change)
    requires IsSlotPath(nodes, path, slot)
    ensures var v := ValueAt(nodes, path, slot);
      Size(NodePieces(o, 0, ChangeAt(nodes, path, slot, change)[path[0]])) + Size(SlotPieces(o, slot, v))
      == Size(NodePieces(o, 0, nodes[path[0]])) + Size(SlotPieces(o, slot, Changed(v, change)))
  {
    hide Size, NodePieces, SlotPieces, PutValueAt;
    PutValueAtSize(o, 0, nodes, path, slot, Changed(ValueAt(nodes, path, slot), change));
  }

  // ----- sessions -----

  datatype Edit = NodeEdit(path: seq<nat>, mutation: Mutation) | ValueEdit(path: seq<nat>, slot: Slot, change: Change)

  predicate Applies(nodes: seq<Node>, edit: Edit) {
    match edit
    case NodeEdit(path, _) => IsPath(nodes, path)
    case ValueEdit(path, slot, _) => IsSlotPath(nodes, path, slot)
  }

  /** One edit; an edit of something that is not there changes nothing. */
  function Apply(nodes: seq<Node>, edit: Edit): (r: seq<Node>)
    ensures |r| == |nodes|
  {
    if !Applies(nodes, edit) then nodes
    else
      match edit
      case NodeEdit(path, m) => EditAt(nodes, path, m)
      case ValueEdit(path, slot, change) => ChangeAt(nodes, path, slot, change)
  }

  function ApplyAll(nodes: seq<Node>, edits: seq<Edit>): (r: seq<Node>)
    ensures |r| == |nodes|
    decreases |edits|
  {
    if edits == [] then nodes else ApplyAll(Apply(nodes, edits[0]), edits[1..])
  }

  /** Some edit through a node, at or below the k-th top-level node, changes something. */
  predicate Touched(nodes: seq<Node>, edits: seq<Edit>, k: nat)
    requires k < |nodes|
    decreases |edits|
  {
    && edits != []
    && ((edits[0].NodeEdit? && Apply(nodes, edits[0])[k] != nodes[k]) || Touched(Apply(nodes, edits[0]), edits[1..], k))
  }

  lemma EditDirt(nodes: seq<Node>, edit: Edit, k: nat)
    requires k < |nodes|
    ensures var n := Apply(nodes, edit)[k];
      && (Dirty(n) <==> Dirty(nodes[k]) || (edit.NodeEdit? && n != nodes[k]))
      && (!Dirty(n) ==> n.raw == nodes[k].raw)
  {
    if Applies(nodes, edit) {
      match edit
      case NodeEdit(path, m) =>
        EditIsSeen(nodes, path, m);
      case ValueEdit(path, slot, change) =>
        ValueEditKeepsDirt(nodes, path, slot, Changed(ValueAt(nodes, path, slot), change));
    }
  }

  /** After a session, a top-level node is dirty exactly when it was before or an edit through a node touched it. */
  lemma {:induction false} SessionDirt(nodes: seq<Node>, edits: seq<Edit>, k: nat)
    requires k < |nodes|
    ensures var n := ApplyAll(nodes, edits)[k];
      (Dirty(n) <==> Dirty(nodes[k]) || Touched(nodes, edits, k)) && (!Dirty(n) ==> n.raw == nodes[k].raw)
    decreases |edits|
  {
    hide Dirty, Apply;
    if edits != [] {
      EditDirt(nodes, edits[0], k);
      SessionDirt(Apply(nodes, edits[0]), edits[1..], k);
    }
  }

  /** What a session leaves of the k-th top-level node. */
  function Part(o: Options, nodes: seq<Node>, edits: seq<Edit>, k: nat): Bytes
    requires k < |nodes|
  {
    if !Touched(nodes, edits, k) && nodes[k].raw.Some? then nodes[k].raw.value.Text()
    else Render(NodePieces(o, 0, ApplyAll(nodes, edits)[k]))
  }

  function Parts(o: Options, nodes: seq<Node>, edits: seq<Edit>, n: nat): seq<Bytes>
    requires n <= |nodes|
  {
    if n == 0 then [] else Parts(o, nodes, edits, n - 1) + [Part(o, nodes, edits, n - 1)]
  }

  lemma {:induction false} PartsJoin(o: Options, nodes: seq<Node>, edits: seq<Edit>, n: nat)
    requires n <= |nodes| && o.preserve && forall k :: 0 <= k < |nodes| ==> !Dirty(nodes[k])
    ensures NodesOutput(o, ApplyAll(nodes, edits)[..n]) == Concat(Parts(o, nodes, edits, n))
    decreases n
  {
    hide NodeOutput, ApplyAll, Part, Dirty;
    if n > 0 {
      var final := ApplyAll(nodes, edits);
      PartsJoin(o, nodes, edits, n - 1);
      PartIsOutput(o, nodes, edits, n - 1);
      assert final[..n][..n - 1] == final[..n - 1];
      var parts := Parts(o, nodes, edits, n);
      assert parts[..|parts| - 1] == Parts(o, nodes, edits, n - 1);
    }
  }

  lemma PartIsOutput(o: Options, nodes: seq<Node>, edits: seq<Edit>, k: nat)
    requires k < |nodes| && o.preserve && !Dirty(nodes[k])
    ensures NodeOutput(o, ApplyAll(nodes, edits)[k]) == Part(o, nodes, edits, k)
  {
    hide Render, NodePieces, NodeOutput, HasAnyDirtyDescendant, ApplyAll, Touched;
    SessionDirt(nodes, edits, k);
    OutputOfNode(o, ApplyAll(nodes, edits)[k]);
  }

  /**
   * Main result: after any session of edits on a parsed document, the output is, node by node, the source's bytes of every
   * top-level node that no edit through a node has touched, whatever was set through its values, and the formatted text of
   * every other one as it is now; and then the source's trailing bytes.
   */
  lemma SessionOutput(e: Env, tokens: seq<Token>, q: nat, d: Config, o: Options, edits: seq<Edit>)
    requires q <= |e.source| && Tiles(e.source, tokens, 0, q)
    requires ParseAll(e, tokens) == Some(d) && ClosesAll(e, tokens) && o.preserve
    ensures var doc := ParsedDocument(e, d);
      && doc.nodes == d.doc && (forall k :: 0 <= k < |d.doc| ==> d.doc[k].raw.Some? && d.doc[k].raw.value.source == e.source)
      && d.lastEnd <= |e.source|
      && DocumentOutput(o, doc.(nodes := ApplyAll(d.doc, edits))) == Concat(Parts(o, d.doc, edits, |d.doc|)) + e.source[d.lastEnd..]
  {
    hide NodesOutput, ClosesAll, ApplyAll, Parts, Segments.Nested, HasAnyDirtyDescendant;
    FormatPreservingIdentity(e, tokens, q, d, o);
    ParseTiled(e, tokens, d, q);
    PartsJoin(o, d.doc, edits, |d.doc|);
    var final := ApplyAll(d.doc, edits);
    assert final[..|d.doc|] == final;
  }

  lemma {:induction false} UntouchedByValues(nodes: seq<Node>, edits: seq<Edit>, k: nat)
    requires k < |nodes| && forall i :: 0 <= i < |edits| ==> edits[i].ValueEdit?
    ensures !Touched(nodes, edits, k)
    decreases |edits|
  {
    hide Apply;
    if edits != [] { UntouchedByValues(Apply(nodes, edits[0]), edits[1..], k); }
  }

  /** Setting values, however many, leaves a parsed document's output as it was. */
  lemma ValueEditsAreNotWritten(o: Options, doc: Document, edits: seq<Edit>)
    requires o.preserve && (forall k :: 0 <= k < |doc.nodes| ==> !Dirty(doc.nodes[k]))
    requires forall i :: 0 <= i < |edits| ==> edits[i].ValueEdit?
    ensures DocumentOutput(o, doc.(nodes := ApplyAll(doc.nodes, edits))) == DocumentOutput(o, doc)
  {
    hide NodesOutput, Dirty, ApplyAll, Parts, Touched, Concat, HasAnyDirtyDescendant;
    var nodes := doc.nodes;
    PartsJoin(o, nodes, edits, |nodes|);
    PartsJoin(o, nodes, [], |nodes|);
    assert ApplyAll(nodes, edits)[..|nodes|] == ApplyAll(nodes, edits);
    assert ApplyAll(nodes, [])[..|nodes|] == nodes by { NothingApplied(nodes); }
    SameParts(o, nodes, edits, |nodes|);
  }

  lemma NothingApplied(nodes: seq<Node>)
    ensures ApplyAll(nodes, []) == nodes && ApplyAll(nodes, [])[..|nodes|] == nodes
  {}

  lemma {:induction false} SameParts(o: Options, nodes: seq<Node>, edits: seq<Edit>, n: nat)
    requires n <= |nodes| && forall i :: 0 <= i < |edits| ==> edits[i].ValueEdit?
    requires forall k :: 0 <= k < |nodes| ==> !Dirty(nodes[k])
    ensures Parts(o, nodes, edits, n) == Parts(o, nodes, [], n)
    decreases n
  {
    hide ApplyAll, Render, NodePieces, HasAnyDirtyDescendant;
    if n > 0 {
      SameParts(o, nodes, edits, n - 1);
      UntouchedByValues(nodes, edits, n - 1);
      assert !Dirty(nodes[n - 1]);
    }
  }

  /**
   * Main result: after any session on a parsed document, a further edit through a value, at any depth, can show in the
   * output exactly when formatting is not preserved or an edit of the session, made through a node, has touched the
   * top-level node around the value.
   */
  lemma LaterValueEditIsWrittenIff(e: Env, tokens: seq<Token>, q: nat, d: Config, o: Options, edits: seq<Edit>, path: seq<nat>, slot: Slot)
    requires q <= |e.source| && Tiles(e.source, tokens, 0, q)
    requires ParseAll(e, tokens) == Some(d) && ClosesAll(e, tokens) && o.spelling == Printing.SPELLED
    requires IsSlotPath(ApplyAll(d.doc, edits), path, slot)
    ensures var doc := ParsedDocument(e, d).(nodes := ApplyAll(d.doc, edits));
      (exists change :: DocumentOutput(o, doc.(nodes := ChangeAt(doc.nodes, path, slot, change))) != DocumentOutput(o, doc))
      <==> !o.preserve || Touched(d.doc, edits, path[0])
  {
    hide NodesOutput, ClosesAll, ApplyAll, Touched, ChangeAt, Segments.Nested, HasAnyDirtyDescendant;
    FormatPreservingIdentity(e, tokens, q, d, o.(preserve := true));
    SessionDirt(d.doc, edits, path[0]);
    ValueEditIsWrittenIff(o, ParsedDocument(e, d).(nodes := ApplyAll(d.doc, edits)), path, slot);
  }
}
