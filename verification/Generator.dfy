// The two writers: the formatting writer, as the list of pieces it prints, and the generator that
// prefers the raw bytes of nodes that were not touched.
module Generator {
  import opened Basics
  import opened Tokens
  import opened Documents

  /** A printed piece: the token it is meant to be read back as, and its bytes. */
  datatype Piece = Piece(id: TokenID, data: Bytes)

  /** How names, values, keys and type names are spelled. */
  datatype Spelling = Spelling(name: Value -> Piece, value: Value -> Piece, key: Bytes -> Piece, typeName: Bytes -> Piece)

  datatype Options = Options(indent: Bytes, preserve: bool, spelling: Spelling)

  const SPACE := Piece(Whitespace, [' ' as int])
  const LINE_FEED := Piece(Newline, ['\n' as int])
  const OPEN := Piece(BraceOpen, ['{' as int])
  const SHUT := Piece(BraceClose, ['}' as int])
  const PAREN_OPEN := Piece(ParensOpen, ['(' as int])
  const PAREN_SHUT := Piece(ParensClose, [')' as int])
  const ASSIGN := Piece(Equals, ['=' as int])

  function Times(b: Bytes, n: nat): Bytes {
    if n == 0 then [] else Times(b, n - 1) + b
  }

  function Render(pieces: seq<Piece>): Bytes {
    if pieces == [] then [] else Render(pieces[..|pieces| - 1]) + pieces[|pieces| - 1].data
  }

  lemma {:induction false} RenderAppend(a: seq<Piece>, b: seq<Piece>)
    ensures Render(a + b) == Render(a) + Render(b)
  {
    if b == [] {
      assert a + b == a;
    } else {
      assert (a + b)[..|a + b| - 1] == a + b[..|b| - 1];
      RenderAppend(a, b[..|b| - 1]);
    }
  }

  // ----- the formatting writer -----

  function Indentation(o: Options, depth: nat): seq<Piece> {
    if depth > 0 && o.indent != [] then [Piece(Whitespace, Times(o.indent, depth))] else []
  }

  function TypePieces(o: Options, typ: Bytes): seq<Piece> {
    if typ == [] then [] else [PAREN_OPEN, o.spelling.typeName(typ), PAREN_SHUT]
  }

  /** Formatting a value in hexadecimal starts a new buffer, and what was in the old one, its annotation, is lost. */
  predicate LosesType(v: Value) { v.flag.FlagHexadecimal? && !v.content.NullValue? }

  function ShownType(o: Options, v: Value): Bytes {
    if LosesType(v) && !(o.preserve && v.raw.Some?) then [] else v.typ
  }

  function ValuePieces(o: Options, v: Value): seq<Piece> {
    var p := o.spelling.value(v);
    TypePieces(o, ShownType(o, v)) + [if o.preserve && v.raw.Some? then p.(data := v.raw.value) else p]
  }

  function ArgPieces(o: Options, args: seq<Value>): seq<Piece> {
    if args == [] then [] else ArgPieces(o, args[..|args| - 1]) + [SPACE] + ValuePieces(o, args[|args| - 1])
  }

  function PropPieces(o: Options, props: seq<Prop>): seq<Piece> {
    if props == [] then []
    else
      var p := props[|props| - 1];
      PropPieces(o, props[..|props| - 1]) + [SPACE, o.spelling.key(p.key), ASSIGN] + ValuePieces(o, p.value)
  }

  function HeadPieces(o: Options, n: Node): seq<Piece> {
    TypePieces(o, n.typ) + TypePieces(o, n.name.typ) + [o.spelling.name(n.name)]
  }

  function NodePieces(o: Options, depth: nat, n: Node): seq<Piece>
    decreases n, 1
  {
    Indentation(o, depth) + HeadPieces(o, n) + ArgPieces(o, n.args) + PropPieces(o, n.props) + BlockPieces(o, depth, n) + [LINE_FEED]
  }

  function BlockPieces(o: Options, depth: nat, n: Node): seq<Piece>
    decreases n, 0
  {
    if n.children == [] then []
    else [SPACE, OPEN, LINE_FEED] + NodesPieces(o, depth + 1, n.children) + Indentation(o, depth) + [SHUT]
  }

  function NodesPieces(o: Options, depth: nat, nodes: seq<Node>): seq<Piece>
    decreases nodes
  {
    if nodes == [] then [] else NodesPieces(o, depth, nodes[..|nodes| - 1]) + NodePieces(o, depth, nodes[|nodes| - 1])
  }

  // ----- what the generator writes -----

  /** True if some descendant has lost its raw bytes. */
  predicate HasAnyDirtyDescendant(n: Node)
    decreases n
  {
    exists i :: 0 <= i < |n.children| && (n.children[i].raw.None? || HasAnyDirtyDescendant(n.children[i]))
  }

  function NodeOutput(o: Options, n: Node): Bytes {
    if o.preserve && n.raw.Some? && !HasAnyDirtyDescendant(n) then n.raw.value.Text() else Render(NodePieces(o, 0, n))
  }

  function NodesOutput(o: Options, nodes: seq<Node>): Bytes {
    if nodes == [] then [] else NodesOutput(o, nodes[..|nodes| - 1]) + NodeOutput(o, nodes[|nodes| - 1])
  }

  function DocumentOutput(o: Options, d: Document): Bytes {
    NodesOutput(o, d.nodes) + if o.preserve then d.trailing else []
  }

  class Writer {
    const options: Options
    var out: Bytes

    constructor (options: Options)
      ensures this.options == options && out == []
    {
      this.options := options;
      out := [];
    }

    method Write(b: Bytes)
      modifies this
      ensures out == old(out) + b
    {
      out := out + b;
    }

    method WriteType(typ: Bytes)
      modifies this
      ensures out == old(out) + Render(TypePieces(options, typ))
    {
      if |typ| > 0 {
        Write(PAREN_OPEN.data);
        Write(options.spelling.typeName(typ).data);
        Write(PAREN_SHUT.data);
        RenderThree(PAREN_OPEN, options.spelling.typeName(typ), PAREN_SHUT);
      }
    }

    method WriteValue(v: Value)
      modifies this
      ensures out == old(out) + Render(ValuePieces(options, v))
    {
      var p := options.spelling.value(v);
      ghost var shown := if options.preserve && v.raw.Some? then p.(data := v.raw.value) else p;
      RenderOne(shown);
      RenderAppend(TypePieces(options, ShownType(options, v)), [shown]);
      hide Render, TypePieces;
      if options.preserve && v.raw.Some? {
        WriteType(v.typ);
        Write(v.raw.value);
        Assoc(old(out), Render(TypePieces(options, v.typ)), shown.data);
      } else {
        var b := FormattedString(v);
        Write(b);
      }
    }

    /** The annotation and the value, built up in one buffer, which a hexadecimal value replaces by a new one. */
    method FormattedString(v: Value) returns (b: Bytes)
      ensures b == Render(TypePieces(options, if LosesType(v) then [] else v.typ)) + options.spelling.value(v).data
    {
      b := [];
      if |v.typ| > 0 {
        b := PAREN_OPEN.data + options.spelling.typeName(v.typ).data + PAREN_SHUT.data;
        RenderThree(PAREN_OPEN, options.spelling.typeName(v.typ), PAREN_SHUT);
      }
      if !v.content.NullValue? && v.flag.FlagHexadecimal? {
        b := [];
      }
      b := b + options.spelling.value(v).data;
    }

    method WriteArgs(args: seq<Value>)
      modifies this
      ensures out == old(out) + Render(ArgPieces(options, args))
    {
      var i := 0;
      while i < |args|
        invariant 0 <= i <= |args|
        invariant out == old(out) + Render(ArgPieces(options, args[..i]))
      {
        hide ArgPieces, ValuePieces, Render;
        ArgRender(options, args, i);
        ghost var done, value := Render(ArgPieces(options, args[..i])), Render(ValuePieces(options, args[i]));
        Write(SPACE.data);
        WriteValue(args[i]);
        Assoc(old(out), done, SPACE.data);
        Assoc(old(out), done + SPACE.data, value);
        i := i + 1;
      }
      assert args[..i] == args;
    }

    method WriteProps(props: seq<Prop>)
      modifies this
      ensures out == old(out) + Render(PropPieces(options, props))
    {
      var i := 0;
      while i < |props|
        invariant 0 <= i <= |props|
        invariant out == old(out) + Render(PropPieces(options, props[..i]))
      {
        hide PropPieces, ValuePieces, Render;
        PropRender(options, props, i);
        ghost var done, value := Render(PropPieces(options, props[..i])), Render(ValuePieces(options, props[i].value));
        var key := options.spelling.key(props[i].key).data;
        Write(SPACE.data);
        Write(key);
        Write(ASSIGN.data);
        WriteValue(props[i].value);
        Assoc(old(out), done, SPACE.data);
        Assoc(old(out), done + SPACE.data, key);
        Assoc(old(out), done + SPACE.data + key, ASSIGN.data);
        Assoc(old(out), done + SPACE.data + key + ASSIGN.data, value);
        i := i + 1;
      }
      assert props[..i] == props;
    }

    method WriteIndent(depth: nat)
      modifies this
      ensures out == old(out) + Render(Indentation(options, depth))
    {
      if depth > 0 {
        Write(Times(options.indent, depth));
        if options.indent == [] {
          TimesNothing(depth);
        } else {
          RenderOne(Piece(Whitespace, Times(options.indent, depth)));
        }
      }
    }

    method WriteHead(n: Node)
      modifies this
      ensures out == old(out) + Render(HeadPieces(options, n))
    {
      HeadRender(options, n);
      hide Render, TypePieces, HeadPieces;
      ghost var a, b, c := Render(TypePieces(options, n.typ)), Render(TypePieces(options, n.name.typ)), options.spelling.name(n.name).data;
      WriteType(n.typ);
      WriteType(n.name.typ);
      Write(options.spelling.name(n.name).data);
      Assoc(old(out), a, b);
      Assoc(old(out), a + b, c);
    }

    /** Prints a node and its children, one indentation level deeper, each on lines of their own. */
    method WriteNode(n: Node, depth: nat)
      modifies this
      ensures out == old(out) + Render(NodePieces(options, depth, n))
      decreases n, 2
    {
      NodeRender(options, depth, n);
      hide Render, Indentation, HeadPieces, ArgPieces, PropPieces, BlockPieces, NodePieces;
      ghost var a, b, c := Render(Indentation(options, depth)), Render(HeadPieces(options, n)), Render(ArgPieces(options, n.args));
      ghost var d, f := Render(PropPieces(options, n.props)), Render(BlockPieces(options, depth, n));
      WriteIndent(depth);
      WriteHead(n);
      WriteArgs(n.args);
      WriteProps(n.props);
      WriteBlock(n, depth);
      Write(LINE_FEED.data);
      Assoc(old(out), a, b);
      Assoc(old(out), a + b, c);
      Assoc(old(out), a + b + c, d);
      Assoc(old(out), a + b + c + d, f);
      Assoc(old(out), a + b + c + d + f, LINE_FEED.data);
    }

    method WriteBlock(n: Node, depth: nat)
      modifies this
      ensures out == old(out) + Render(BlockPieces(options, depth, n))
      decreases n, 1
    {
      if |n.children| > 0 {
        BlockRender(options, depth, n);
        hide Render, Indentation, NodesPieces, BlockPieces;
        ghost var a, b := Render(NodesPieces(options, depth + 1, n.children)), Render(Indentation(options, depth));
        Write(SPACE.data + OPEN.data + LINE_FEED.data);
        WriteChildren(n, depth + 1);
        WriteIndent(depth);
        Write(SHUT.data);
        ghost var start := SPACE.data + OPEN.data + LINE_FEED.data;
        Assoc(old(out), start, a);
        Assoc(old(out), start + a, b);
        Assoc(old(out), start + a + b, SHUT.data);
      }
    }

    method WriteChildren(n: Node, depth: nat)
      modifies this
      ensures out == old(out) + Render(NodesPieces(options, depth, n.children))
      decreases n, 0
    {
      var i := 0;
      while i < |n.children|
        invariant 0 <= i <= |n.children|
        invariant out == old(out) + Render(NodesPieces(options, depth, n.children[..i]))
      {
        hide Render, NodePieces;
        ghost var done := NodesPieces(options, depth, n.children[..i]);
        WriteNode(n.children[i], depth);
        assert n.children[..i + 1][..i] == n.children[..i];
        RenderAppend(done, NodePieces(options, depth, n.children[i]));
        Assoc(old(out), Render(done), Render(NodePieces(options, depth, n.children[i])));
        i := i + 1;
      }
      assert n.children[..i] == n.children;
    }

    method GenerateNodes(nodes: seq<Node>)
      modifies this
      ensures out == old(out) + NodesOutput(options, nodes)
    {
      var i := 0;
      while i < |nodes|
        invariant 0 <= i <= |nodes|
        invariant out == old(out) + NodesOutput(options, nodes[..i])
      {
        NodesOutputNext(options, nodes, i);
        hide NodesOutput, NodePieces, Render, HasAnyDirtyDescendant;
        if options.preserve && nodes[i].raw.Some? && !HasAnyDirtyDescendant(nodes[i]) {
          Write(nodes[i].raw.value.Text());
        } else {
          WriteNode(nodes[i], 0);
        }
        Assoc(old(out), NodesOutput(options, nodes[..i]), NodeOutput(options, nodes[i]));
        i := i + 1;
      }
      assert nodes[..i] == nodes;
    }

    method Generate(d: Document)
      modifies this
      ensures out == old(out) + DocumentOutput(options, d)
    {
      GenerateNodes(d.nodes);
      if options.preserve && |d.trailing| > 0 {
        Write(d.trailing);
      }
    }
  }

  lemma NodesOutputNext(o: Options, nodes: seq<Node>, i: nat)
    requires i < |nodes|
    ensures NodesOutput(o, nodes[..i + 1]) == NodesOutput(o, nodes[..i]) + NodeOutput(o, nodes[i])
  {
    assert nodes[..i + 1][..i] == nodes[..i];
  }

  lemma RenderOne(p: Piece)
    ensures Render([p]) == p.data
  {
    assert [p][..0] == [];
  }

  lemma RenderThree(p: Piece, q: Piece, r: Piece)
    ensures Render([p, q, r]) == p.data + q.data + r.data
  {
    assert [p, q, r] == [p] + [q] + [r];
    RenderAppend([p] + [q], [r]);
    RenderAppend([p], [q]);
    RenderOne(p);
    RenderOne(q);
    RenderOne(r);
  }

  lemma {:induction false} TimesNothing(n: nat)
    ensures Times([], n) == []
  {
    if n > 0 {
      TimesNothing(n - 1);
    }
  }

  lemma ArgRender(o: Options, args: seq<Value>, i: nat)
    requires i < |args|
    ensures Render(ArgPieces(o, args[..i + 1])) == Render(ArgPieces(o, args[..i])) + SPACE.data + Render(ValuePieces(o, args[i]))
  {
    hide Render;
    var done := ArgPieces(o, args[..i]);
    assert args[..i + 1][..i] == args[..i];
    RenderOne(SPACE);
    RenderAppend(done, [SPACE]);
    RenderAppend(done + [SPACE], ValuePieces(o, args[i]));
  }

  lemma PropRender(o: Options, props: seq<Prop>, i: nat)
    requires i < |props|
    ensures Render(PropPieces(o, props[..i + 1]))
         == Render(PropPieces(o, props[..i])) + SPACE.data + o.spelling.key(props[i].key).data + ASSIGN.data + Render(ValuePieces(o, props[i].value))
  {
    hide Render;
    var done, key := PropPieces(o, props[..i]), o.spelling.key(props[i].key);
    assert props[..i + 1][..i] == props[..i];
    RenderThree(SPACE, key, ASSIGN);
    RenderAppend(done, [SPACE, key, ASSIGN]);
    RenderAppend(done + [SPACE, key, ASSIGN], ValuePieces(o, props[i].value));
    assert Render(done) + (SPACE.data + key.data + ASSIGN.data) == Render(done) + SPACE.data + key.data + ASSIGN.data;
  }

  lemma HeadRender(o: Options, n: Node)
    ensures Render(HeadPieces(o, n)) == Render(TypePieces(o, n.typ)) + Render(TypePieces(o, n.name.typ)) + o.spelling.name(n.name).data
  {
    hide Render, TypePieces;
    RenderAppend(TypePieces(o, n.typ) + TypePieces(o, n.name.typ), [o.spelling.name(n.name)]);
    RenderAppend(TypePieces(o, n.typ), TypePieces(o, n.name.typ));
    RenderOne(o.spelling.name(n.name));
  }

  lemma NodeRender(o: Options, depth: nat, n: Node)
    ensures Render(NodePieces(o, depth, n))
         == Render(Indentation(o, depth)) + Render(HeadPieces(o, n)) + Render(ArgPieces(o, n.args))
          + Render(PropPieces(o, n.props)) + Render(BlockPieces(o, depth, n)) + LINE_FEED.data
  {
    hide Render, Indentation, HeadPieces, ArgPieces, PropPieces, BlockPieces;
    var a, b, c, d, f := Indentation(o, depth), HeadPieces(o, n), ArgPieces(o, n.args), PropPieces(o, n.props), BlockPieces(o, depth, n);
    RenderAppend(a, b);
    RenderAppend(a + b, c);
    RenderAppend(a + b + c, d);
    RenderAppend(a + b + c + d, f);
    RenderAppend(a + b + c + d + f, [LINE_FEED]);
    RenderOne(LINE_FEED);
  }

  lemma BlockRender(o: Options, depth: nat, n: Node)
    requires n.children != []
    ensures Render(BlockPieces(o, depth, n))
         == SPACE.data + OPEN.data + LINE_FEED.data + Render(NodesPieces(o, depth + 1, n.children)) + Render(Indentation(o, depth)) + SHUT.data
  {
    hide Render, Indentation, NodesPieces;
    var a, b := NodesPieces(o, depth + 1, n.children), Indentation(o, depth);
    RenderAppend([SPACE, OPEN, LINE_FEED] + a + b, [SHUT]);
    RenderAppend([SPACE, OPEN, LINE_FEED] + a, b);
    RenderAppend([SPACE, OPEN, LINE_FEED], a);
    RenderThree(SPACE, OPEN, LINE_FEED);
    RenderOne(SHUT);
  }
}
