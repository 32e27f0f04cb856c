// The KDL parser as a pushdown machine over one stack of open child blocks.
// Every reachable shape of the parser's parallel stacks is a value of Config, so the
// machine has no stack-underflow errors; ParserContext shows that the parser refines it.
module Machine {
  import opened Basics
  import opened Tokens
  import opened Documents

  /** A node under construction; ignored means slashdashed, start is where its raw segment begins. */
  datatype OpenNode = OpenNode(node: Node, ignored: bool, start: nat)

  /** The parser states a node can be in while it is the innermost open node. */
  datatype NodeState = AtNode | AtParams | AtEnd | AtArgProp | AtPostWS | AtPropValue

  datatype Phase = Between | Inside(open: OpenNode, st: NodeState, seen: bool)

  /** A type annotation being read: none, after '(', after the type name. */
  datatype Annotation = NoAnnotation | Wanted | Got

  /** The extent of a finished node. */
  datatype Segment = Segment(lo: nat, hi: nat, ignored: bool)

  /** An open child block: its owner, the owner's state to return to, the segments finished in the
      enclosing level, the enclosing lastEnd, the offset after the brace, and whether it is slashdashed. */
  datatype Block = Block(owner: OpenNode, ret: NodeState, outer: seq<Segment>, savedEnd: nat, base: nat, dropped: bool)

  datatype Config = Config(
    doc: seq<Node>,          // finished top-level nodes
    segments: seq<Segment>,  // finished nodes of the innermost level, slashdashed ones included
    blocks: seq<Block>,      // open child blocks, innermost last
    phase: Phase,
    annotation: Annotation,
    ident: Token,
    typ: Token,
    cont: bool,
    skipNode: bool,
    skipEntry: bool,
    lastEnd: nat)

  /** What a parse is run against. */
  datatype Env = Env(decode: Decoder, source: Bytes)

  const INITIAL := Config([], [], [], Between, NoAnnotation, NO_TOKEN, NO_TOKEN, false, false, false, 0)

  /** True while some enclosing block is slashdashed. */
  predicate InDropped(blocks: seq<Block>) {
    blocks != [] && blocks[|blocks| - 1].dropped
  }

  function TokenEnd(e: Env, t: Token): nat {
    if t.id.EOF? then |e.source| else t.offset + |t.data|
  }

  // ----- the building blocks of the transitions -----

  function StartNode(e: Env, c: Config, t: Token): Option<Config> {
    var name :- ValueOf(e.decode, t, NO_TOKEN);
    var node := Node(name, if c.typ.Valid() then c.typ.data else [], [], [], [], None);
    var ignored := c.skipNode || InDropped(c.blocks);
    Some(c.(phase := Inside(OpenNode(node, ignored, c.lastEnd), AtNode, false),
           typ := if c.typ.Valid() then NO_TOKEN else c.typ, skipNode := false))
  }

  /** Adds the value of token t to the innermost node. */
  function AddArgument(e: Env, c: Config, t: Token): Option<Config>
    requires c.phase.Inside?
  {
    var v :- ValueOf(e.decode, t, c.typ);
    var node := c.phase.open.node;
    Some(c.(phase := c.phase.(open := c.phase.open.(node := node.(args := node.args + [v])))))
  }

  function AddProperty(e: Env, c: Config, t: Token): Option<Config>
    requires c.phase.Inside?
  {
    var key :- e.decode(c.ident);
    var v :- ValueOf(e.decode, t, c.typ);
    var node := c.phase.open.node;
    Some(c.(phase := c.phase.(open := c.phase.open.(node := node.(props := Put(node.props, KeyText(key), v))))))
  }

  /** The pending identifier turns out to be an argument (or the target of a slashdash). */
  function Commit(e: Env, c: Config): Option<Config>
    requires c.phase.Inside?
  {
    var c' :- if c.skipEntry then Some(c.(skipEntry := false)) else AddArgument(e, c, c.ident);
    Some(c'.(typ := NO_TOKEN, ident := NO_TOKEN))
  }

  function CommitPending(e: Env, c: Config): Option<Config>
    requires c.phase.Inside?
  {
    if c.ident.Valid() then Commit(e, c) else Some(c)
  }

  function Goto(c: Config, st: NodeState): Config
    requires c.phase.Inside?
  {
    c.(phase := c.phase.(st := st))
  }

  /** A finished node gets the source slice from its start to end, unless it is slashdashed. */
  function Close(e: Env, o: OpenNode, end: nat): Node {
    if !o.ignored && o.start < end <= |e.source| then o.node.(raw := Some(RawSegment(e.source, o.start, end))) else o.node
  }

  /** Puts a finished node where the tree wants it. */
  function Attach(c: Config, o: OpenNode, node: Node): Config {
    if o.ignored then c
    else if c.blocks == [] then c.(doc := c.doc + [node])
    else
      var k := |c.blocks| - 1;
      var b := c.blocks[k];
      var owner := b.owner.(node := b.owner.node.(children := b.owner.node.children + [node]));
      c.(blocks := c.blocks[..k] + [b.(owner := owner)])
  }

  function EndNode(e: Env, c: Config, end: nat): Config
    requires c.phase.Inside?
  {
    var o := c.phase.open;
    Attach(c, o, Close(e, o, end)).(phase := Between, lastEnd := end,
                                    segments := c.segments + [Segment(o.start, end, o.ignored)])
  }

  function OpenBlock(c: Config, t: Token): Config
    requires c.phase.Inside?
  {
    var dropped := c.skipEntry || InDropped(c.blocks);
    var b := Block(c.phase.open, c.phase.st, c.segments, c.lastEnd, t.offset + 1, dropped);
    c.(blocks := c.blocks + [b], phase := Between, segments := [], lastEnd := t.offset + 1,
       skipEntry := false)
  }

  function CloseBlock(c: Config): Config
    requires c.blocks != []
  {
    var k := |c.blocks| - 1;
    var b := c.blocks[k];
    c.(blocks := c.blocks[..k], phase := Inside(b.owner, b.ret, true), segments := b.outer, lastEnd := b.savedEnd)
  }

  /** A '}' that ends both the innermost node and the block around it. */
  function EndNodeAndBlock(e: Env, c: Config, t: Token): Option<Config>
    requires c.phase.Inside?
  {
    var c' := EndNode(e, c, t.offset);
    if c'.blocks == [] then None else Some(CloseBlock(c'))
  }

  /** A terminator or a brace after a possibly pending identifier, which is then an argument. */
  function CommitAndLeave(e: Env, c: Config, t: Token): Option<Config>
    requires c.phase.Inside?
  {
    if t.id.BraceOpen? && c.ident.Valid() && c.phase.seen then None
    else
      var c' :- CommitPending(e, c);
      if IsTerminator(t.id) then Some(EndNode(e, c', TokenEnd(e, t)))
      else if t.id.BraceOpen? then Some(OpenBlock(c', t))
      else if t.id.BraceClose? then EndNodeAndBlock(e, c', t)
      else None
  }

  /** An '=' is legal only after an unannotated identifier. */
  function AcceptEquals(c: Config): Option<Config>
    requires c.phase.Inside?
  {
    if c.typ.Valid() || !IsIdentifier(c.ident.id) then None else Some(Goto(c, AtPropValue))
  }

  // ----- one transition function per group of states -----

  function InAnnotation(c: Config, t: Token): Option<Config> {
    if t.id.Whitespace? || IsComment(t.id) then Some(c)
    else if c.annotation.Wanted? && IsIdentifier(t.id) then Some(c.(typ := t, annotation := Got))
    else if c.annotation.Got? && t.id.ParensClose? then Some(c.(annotation := NoAnnotation))
    else None
  }

  function BetweenNodes(e: Env, c: Config, t: Token): Option<Config> {
    var top := c.blocks == [];
    if t.id.Whitespace? || IsComment(t.id) then Some(c)
    else if IsIdentifier(t.id) then StartNode(e, c, t)
    else if t.id.ParensOpen? then Some(c.(annotation := Wanted))
    else if t.id.EOF? then (if top && !c.typ.Valid() && !c.skipNode then Some(c) else None)
    else if IsTerminator(t.id) then (if top && c.typ.Valid() then None else Some(c))
    else if t.id.TokenComment? then (if c.typ.Valid() then None else Some(c.(skipNode := true)))
    else if t.id.Continuation? then Some(c.(cont := true))
    else if t.id.BraceClose? && !top && !c.skipNode then Some(CloseBlock(c))
    else None
  }

  function InNode(e: Env, c: Config, t: Token): Option<Config>
    requires c.phase.Inside?
  {
    if t.id.Whitespace? then Some(Goto(c, AtParams))
    else if IsTerminator(t.id) then Some(EndNode(e, c, TokenEnd(e, t)))
    else if t.id.Continuation? then Some(c.(cont := true))
    else if t.id.BraceOpen? then Some(OpenBlock(c, t))
    else if t.id.BraceClose? then EndNodeAndBlock(e, c, t)
    else None
  }

  /** A value after whitespace; a suffixed number can only be an argument, and it is never annotated. */
  function FirstEntry(e: Env, c: Config, t: Token): Option<Config>
    requires c.phase.Inside?
  {
    if c.phase.seen then None
    else if t.id.SuffixedDecimal? then Commit(e, c.(typ := NO_TOKEN, ident := t))
    else Some(Goto(c.(ident := t), AtArgProp))
  }

  /** A terminator after whitespace: a pending slashdash looks for its target on the next line only. */
  function EndParams(e: Env, c: Config, t: Token): Option<Config>
    requires c.phase.Inside?
  {
    if c.skipEntry then (if t.id.Newline? then Some(c) else None)
    else if c.typ.Valid() then None
    else Some(EndNode(e, c, TokenEnd(e, t)))
  }

  function InParams(e: Env, c: Config, t: Token): Option<Config>
    requires c.phase.Inside?
  {
    if t.id.Whitespace? || t.id.MultiLineComment? then Some(c)
    else if t.id.SingleLineComment? then Some(if c.cont then c else Goto(c, AtEnd))
    else if t.id.TokenComment? then (if c.typ.Valid() then None else Some(c.(skipEntry := true)))
    else if t.id.Continuation? then Some(c.(cont := true))
    else if t.id.ParensOpen? then Some(c.(annotation := Wanted))
    else if IsValue(t.id) then FirstEntry(e, c, t)
    else if t.id.BraceOpen? then Some(OpenBlock(c, t))
    else if IsTerminator(t.id) then EndParams(e, c, t)
    else None
  }

  function InEnd(e: Env, c: Config, t: Token): Option<Config>
    requires c.phase.Inside?
  {
    if t.id.Whitespace? then Some(c)
    else if t.id.Newline? || t.id.EOF? then
      Some(if c.skipEntry then Goto(c, AtParams) else EndNode(e, c, TokenEnd(e, t)))
    else if t.id.BraceClose? then EndNodeAndBlock(e, c, t)
    else None
  }

  function InArgProp(e: Env, c: Config, t: Token): Option<Config>
    requires c.phase.Inside?
  {
    if t.id.TokenComment? then
      var c' :- Commit(e, c);
      Some(c'.(skipEntry := true))
    else if t.id.Equals? then AcceptEquals(c)
    else if t.id.Whitespace? then Some(Goto(c, AtPostWS))
    else if t.id.Continuation? then Some(Goto(c.(cont := true), AtPostWS))
    else if IsValue(t.id) then (if c.ident.Valid() then None else Some(c.(ident := t)))
    else CommitAndLeave(e, c, t)
  }

  /** A value or an annotation shows that the pending identifier was an argument. */
  function NextEntry(e: Env, c: Config, t: Token): Option<Config>
    requires c.phase.Inside?
  {
    var c' :- Commit(e, c);
    Some(if t.id.ParensOpen? then Goto(c', AtParams).(annotation := Wanted) else Goto(c'.(ident := t), AtArgProp))
  }

  /** A slashdash, or the comment that ends the line, commits the pending identifier. */
  function BeforeComment(e: Env, c: Config, t: Token): Option<Config>
    requires c.phase.Inside?
  {
    var c' :- CommitPending(e, c);
    Some(if t.id.TokenComment? then Goto(c'.(skipEntry := true), AtParams) else Goto(c', AtEnd))
  }

  function InPostWS(e: Env, c: Config, t: Token): Option<Config>
    requires c.phase.Inside?
  {
    if t.id.Whitespace? || t.id.MultiLineComment? then Some(c)
    else if t.id.Equals? then AcceptEquals(c)
    else if t.id.Continuation? then Some(c.(cont := true))
    else if IsValue(t.id) || t.id.ParensOpen? then NextEntry(e, c, t)
    else if t.id.SingleLineComment? && c.cont then Some(c)
    else if t.id.TokenComment? || t.id.SingleLineComment? then BeforeComment(e, c, t)
    else CommitAndLeave(e, c, t)
  }

  /** The value of a property, unless a slashdash takes it. */
  function PropertyValue(e: Env, c: Config, t: Token): Option<Config>
    requires c.phase.Inside?
  {
    var c' :- if c.skipEntry then Some(c.(skipEntry := false)) else AddProperty(e, c, t);
    Some(Goto(c'.(typ := NO_TOKEN, ident := NO_TOKEN), AtNode))
  }

  function InPropValue(e: Env, c: Config, t: Token): Option<Config>
    requires c.phase.Inside?
  {
    if t.id.Whitespace? || IsComment(t.id) then Some(c)
    else if t.id.Continuation? then Some(c.(cont := true))
    else if t.id.ParensOpen? then Some(c.(annotation := Wanted))
    else if IsValue(t.id) then PropertyValue(e, c, t)
    else None
  }

  function Handle(e: Env, c: Config, t: Token): Option<Config> {
    if !c.annotation.NoAnnotation? then InAnnotation(c, t)
    else match c.phase
      case Between => BetweenNodes(e, c, t)
      case Inside(_, AtNode, _) => InNode(e, c, t)
      case Inside(_, AtParams, _) => InParams(e, c, t)
      case Inside(_, AtEnd, _) => InEnd(e, c, t)
      case Inside(_, AtArgProp, _) => InArgProp(e, c, t)
      case Inside(_, AtPostWS, _) => InPostWS(e, c, t)
      case Inside(_, AtPropValue, _) => InPropValue(e, c, t)
  }

  /** A continuation survives whitespace and comments, swallows one newline, and ends at anything else. */
  function Step(e: Env, c: Config, t: Token): Option<Config> {
    if c.cont && t.id.Newline? then Some(c.(cont := false))
    else if t.id.Whitespace? || IsComment(t.id) then Handle(e, c, t)
    else Handle(e, c.(cont := false), t)
  }

  function Run(e: Env, c: Config, tokens: seq<Token>): Option<Config>
    decreases |tokens|
  {
    if tokens == [] then Some(c)
    else
      var c' :- Step(e, c, tokens[0]);
      Run(e, c', tokens[1..])
  }

  lemma {:induction false} RunAppend(e: Env, c: Config, a: seq<Token>, b: seq<Token>)
    ensures Run(e, c, a + b) == (match Run(e, c, a) case None => None case Some(c') => Run(e, c', b))
    decreases |a|
  {
    if a == [] {
      assert a + b == b;
    } else {
      assert (a + b)[1..] == a[1..] + b;
      match Step(e, c, a[0]) {
        case None =>
        case Some(c') => RunAppend(e, c', a[1..], b);
      }
    }
  }

  lemma RunOne(e: Env, c: Config, t: Token)
    ensures Run(e, c, [t]) == Step(e, c, t)
  {
    hide Step;
    assert [t][1..] == [];
  }

  lemma RunThen(e: Env, c: Config, tokens: seq<Token>, k: nat, m: Config)
    requires k <= |tokens| && Run(e, c, tokens[..k]) == Some(m)
    ensures Run(e, c, tokens) == Run(e, m, tokens[k..])
  {
    hide Step;
    assert tokens[..k] + tokens[k..] == tokens;
    RunAppend(e, c, tokens[..k], tokens[k..]);
  }

  lemma RunHead(e: Env, c: Config, tokens: seq<Token>, m: Config)
    requires tokens != [] && Step(e, c, tokens[0]) == Some(m)
    ensures Run(e, c, tokens) == Run(e, m, tokens[1..])
  {
    hide Step;
  }

  /** A whole parse: the tokens followed by EOF. */
  function ParseAll(e: Env, tokens: seq<Token>): Option<Config> {
    Run(e, INITIAL, tokens + [EOF_TOKEN])
  }

  // ----- the tree the document shows, finished or not -----

  /** The node that hangs below the document through the open nodes, if none of them is slashdashed. */
  function Spine(blocks: seq<Block>, inner: Option<Node>): Option<Node>
    decreases |blocks|
  {
    if blocks == [] then inner
    else
      var k := |blocks| - 1;
      var o := blocks[k].owner;
      var node := if inner.Some? then o.node.(children := o.node.children + [inner.value]) else o.node;
      Spine(blocks[..k], if o.ignored then None else Some(node))
  }

  function Visible(c: Config): seq<Node> {
    var inner := if c.phase.Inside? && !c.phase.open.ignored then Some(c.phase.open.node) else None;
    match Spine(c.blocks, inner)
    case None => c.doc
    case Some(n) => c.doc + [n]
  }
}
