// Reading back what the formatting writer prints rebuilds the tree.
module RoundTrip {
  import opened Basics
  import opened Tokens
  import opened Documents
  import opened Machine
  import opened Generator

  // ----- trees without source positions and flags -----

  function EraseValue(v: Value): Value { v.(raw := None, flag := NoFlag) }

  function EraseValues(vs: seq<Value>): seq<Value> {
    seq(|vs|, i requires 0 <= i < |vs| => EraseValue(vs[i]))
  }

  function EraseProps(ps: seq<Prop>): seq<Prop> {
    seq(|ps|, i requires 0 <= i < |ps| => ps[i].(value := EraseValue(ps[i].value)))
  }

  function Erase(n: Node): Node
    decreases n
  {
    Node(EraseValue(n.name), n.typ, EraseValues(n.args), EraseProps(n.props), EraseAll(n.children), None)
  }

  function EraseAll(nodes: seq<Node>): seq<Node>
    decreases nodes
  {
    if nodes == [] then [] else EraseAll(nodes[..|nodes| - 1]) + [Erase(nodes[|nodes| - 1])]
  }

  lemma {:induction false} ErasedCount(nodes: seq<Node>)
    ensures |EraseAll(nodes)| == |nodes|
    decreases |nodes|
  {
    hide Erase;
    if nodes != [] { ErasedCount(nodes[..|nodes| - 1]); }
  }

  lemma EraseAllSnoc(nodes: seq<Node>, n: Node)
    ensures EraseAll(nodes + [n]) == EraseAll(nodes) + [Erase(n)]
  {
    assert (nodes + [n])[..|nodes + [n]| - 1] == nodes;
  }

  // ----- when a spelling can be read back -----

  ghost predicate Decodes(e: Env, p: Piece, content: Content) {
    forall k: nat :: e.decode(Token(p.id, p.data, k)) == Some(content)
  }

  ghost predicate ReadableType(o: Options, typ: Bytes) {
    typ != [] ==> IsIdentifier(o.spelling.typeName(typ).id) && o.spelling.typeName(typ).data == typ
  }

  /** The annotation of the value is written. */
  predicate KeepsType(v: Value) { LosesType(v) ==> v.typ == [] }

  ghost predicate ReadableValue(e: Env, o: Options, v: Value) {
    && ReadableType(o, v.typ) && KeepsType(v)
    && IsValue(o.spelling.value(v).id) && !o.spelling.value(v).id.SuffixedDecimal?
    && Decodes(e, o.spelling.value(v), v.content)
  }

  ghost predicate ReadableKey(e: Env, o: Options, key: Bytes) {
    var p := o.spelling.key(key);
    IsIdentifier(p.id) && exists c :: Decodes(e, p, c) && KeyText(c) == key
  }

  ghost predicate Readable(e: Env, o: Options, n: Node)
    decreases n
  {
    && ReadableType(o, n.typ)
    && n.name.typ == [] && IsIdentifier(o.spelling.name(n.name).id) && Decodes(e, o.spelling.name(n.name), n.name.content)
    && (forall i :: 0 <= i < |n.args| ==> ReadableValue(e, o, n.args[i]))
    && (forall i :: 0 <= i < |n.props| ==> ReadableKey(e, o, n.props[i].key) && ReadableValue(e, o, n.props[i].value))
    && DistinctKeys(n.props)
    && (forall i :: 0 <= i < |n.children| ==> Readable(e, o, n.children[i]))
  }

  /** The tokens carry the printed pieces; their offsets are free. */
  predicate Matches(tokens: seq<Token>, pieces: seq<Piece>) {
    && |tokens| == |pieces|
    && forall i :: 0 <= i < |tokens| ==> tokens[i].id == pieces[i].id && tokens[i].data == pieces[i].data
  }

  lemma Split(tokens: seq<Token>, a: seq<Piece>, b: seq<Piece>)
    requires Matches(tokens, a + b)
    ensures Matches(tokens[..|a|], a) && Matches(tokens[|a|..], b)
    ensures tokens[..|a|] + tokens[|a|..] == tokens
  {
    forall i | 0 <= i < |a|
      ensures tokens[..|a|][i].id == a[i].id && tokens[..|a|][i].data == a[i].data
    {
      assert (a + b)[i] == a[i];
    }
    forall i | 0 <= i < |b|
      ensures tokens[|a|..][i].id == b[i].id && tokens[|a|..][i].data == b[i].data
    {
      assert (a + b)[|a| + i] == b[i];
    }
  }

  // ----- where the reader is while it reads the entries of a node -----

  /** Ready for the next node, with nothing pending and nothing slashdashed. */
  predicate Idle(c: Config) {
    && c.phase.Between? && c.annotation.NoAnnotation? && !c.ident.Valid() && !c.typ.Valid()
    && c.ident == NO_TOKEN && c.typ == NO_TOKEN
    && !c.cont && !c.skipNode && !c.skipEntry && !InDropped(c.blocks)
  }

  /** The node so far and the identifier, if any, that is still pending with its type. */
  datatype Spot = Spot(node: Node, ident: Token, typ: Token)

  /** The node once the pending identifier is an argument. */
  function Settled(e: Env, s: Spot): Option<Node> {
    if s.ident.Valid() then
      var v :- ValueOf(e.decode, s.ident, s.typ);
      Some(s.node.(args := s.node.args + [v]))
    else if s.typ == NO_TOKEN && s.ident == NO_TOKEN then Some(s.node) else None
  }

  function In(b: Config, st: NodeState, s: Spot, seen: bool): Config {
    b.(phase := Inside(OpenNode(s.node, false, b.lastEnd), st, seen), ident := s.ident, typ := s.typ)
  }

  /** After an entry, and after the space that follows it. */
  function Fresh(b: Config, s: Spot): Config { In(b, if s.ident.Valid() then AtArgProp else AtNode, s, false) }
  function Spaced(b: Config, s: Spot): Config { In(b, if s.ident.Valid() then AtPostWS else AtParams, s, false) }

  lemma SpaceReads(e: Env, b: Config, s: Spot, t: Token)
    requires Idle(b) && Settled(e, s).Some? && t.id.Whitespace?
    ensures Step(e, Fresh(b, s), t) == Some(Spaced(b, s))
  {}

  lemma PlainEntryReads(e: Env, b: Config, s: Spot, t: Token, m: Node)
    requires Idle(b) && Settled(e, s) == Some(m) && IsValue(t.id) && !t.id.SuffixedDecimal?
    ensures Step(e, Spaced(b, s), t) == Some(Fresh(b, Spot(m, t, NO_TOKEN)))
  {}

  lemma AnnotationOpens(e: Env, b: Config, s: Spot, t: Token, m: Node)
    requires Idle(b) && Settled(e, s) == Some(m) && t.id.ParensOpen?
    ensures Step(e, Spaced(b, s), t) == Some(In(b, AtParams, Spot(m, NO_TOKEN, NO_TOKEN), false).(annotation := Wanted))
  {}

  lemma AnnotationReads(e: Env, c: Config, name: Token, shut: Token)
    requires c.annotation.Wanted? && !c.cont && IsIdentifier(name.id) && shut.id.ParensClose?
    ensures Run(e, c, [name, shut]) == Some(c.(annotation := NoAnnotation, typ := name))
  {
    var c1 := c.(annotation := Got, typ := name);
    assert Step(e, c, name) == Some(c1);
    RunHead(e, c, [name, shut], c1);
    assert [name, shut][1..] == [shut];
    RunOne(e, c1, shut);
  }

  lemma TypedEntryReads(e: Env, b: Config, m: Node, typ: Token, t: Token)
    requires Idle(b) && typ.Valid() && IsValue(t.id) && !t.id.SuffixedDecimal?
    ensures Step(e, In(b, AtParams, Spot(m, NO_TOKEN, typ), false), t) == Some(Fresh(b, Spot(m, t, typ)))
  {}

  /** A space and a value, annotated or not, add one argument. */
  lemma ArgReads(e: Env, o: Options, b: Config, s: Spot, m: Node, v: Value, tokens: seq<Token>) returns (s': Spot, v': Value)
    requires Idle(b) && Settled(e, s) == Some(m) && !o.preserve && ReadableValue(e, o, v)
    requires Matches(tokens, [SPACE] + ValuePieces(o, v))
    ensures Run(e, Fresh(b, s), tokens) == Some(Fresh(b, s'))
    ensures Settled(e, s') == Some(m.(args := m.args + [v'])) && EraseValue(v') == EraseValue(v)
  {
    hide Step, Fresh, Spaced;
    SpaceReads(e, b, s, tokens[0]);
    RunHead(e, Fresh(b, s), tokens, Spaced(b, s));
    var last := tokens[|tokens| - 1];
    var p := o.spelling.value(v);
    assert last.id == p.id && last.data == p.data by {
      assert ([SPACE] + ValuePieces(o, v))[|tokens| - 1] == p;
    }
    assert e.decode(Token(p.id, p.data, last.offset)) == Some(v.content);
    if v.typ == [] {
      assert tokens[1..] == [last];
      PlainEntryReads(e, b, s, last, m);
      RunOne(e, Spaced(b, s), last);
      s' := Spot(m, last, NO_TOKEN);
    } else {
      TypedArgReads(e, o, b, s, m, v, tokens[1..]);
      s' := Spot(m, last, tokens[2]);
      assert tokens[2].data == v.typ by {
        assert ([SPACE] + ValuePieces(o, v))[2] == o.spelling.typeName(v.typ);
      }
    }
    v' := ValueOf(e.decode, s'.ident, s'.typ).value;
  }

  lemma TypedArgReads(e: Env, o: Options, b: Config, s: Spot, m: Node, v: Value, tokens: seq<Token>)
    requires Idle(b) && Settled(e, s) == Some(m) && !o.preserve && ReadableValue(e, o, v) && v.typ != []
    requires Matches(tokens, ValuePieces(o, v))
    ensures |tokens| == 4 && tokens[1].Valid()
    ensures Run(e, Spaced(b, s), tokens) == Some(Fresh(b, Spot(m, tokens[3], tokens[1])))
  {
    hide Step, Fresh, Spaced;
    assert ValuePieces(o, v) == [PAREN_OPEN, o.spelling.typeName(v.typ), PAREN_SHUT, o.spelling.value(v)];
    AnnotationOpens(e, b, s, tokens[0], m);
    var c1 := In(b, AtParams, Spot(m, NO_TOKEN, NO_TOKEN), false).(annotation := Wanted);
    RunHead(e, Spaced(b, s), tokens, c1);
    AnnotationReads(e, c1, tokens[1], tokens[2]);
    assert tokens[1..][..2] == [tokens[1], tokens[2]];
    var c2 := In(b, AtParams, Spot(m, NO_TOKEN, tokens[1]), false);
    RunThen(e, c1, tokens[1..], 2, c2);
    assert tokens[1..][2..] == [tokens[3]];
    TypedEntryReads(e, b, m, tokens[1], tokens[3]);
    RunOne(e, c2, tokens[3]);
  }

  lemma {:induction false} ArgsRead(e: Env, o: Options, b: Config, s: Spot, m: Node, args: seq<Value>, tokens: seq<Token>)
    returns (s': Spot, args': seq<Value>)
    requires Idle(b) && Settled(e, s) == Some(m) && !o.preserve
    requires forall i :: 0 <= i < |args| ==> ReadableValue(e, o, args[i])
    requires Matches(tokens, ArgPieces(o, args))
    ensures Run(e, Fresh(b, s), tokens) == Some(Fresh(b, s'))
    ensures Settled(e, s') == Some(m.(args := m.args + args')) && EraseValues(args') == EraseValues(args)
    decreases |args|
  {
    hide Step, Fresh, Settled, ValuePieces, ReadableValue, EraseValues, Idle;
    if args == [] {
      s', args' := s, [];
      assert m.args + [] == m.args;
      assert tokens == [];
    } else {
      var k := |args| - 1;
      var done := ArgPieces(o, args[..k]);
      assert ArgPieces(o, args) == done + ([SPACE] + ValuePieces(o, args[k]));
      Split(tokens, done, [SPACE] + ValuePieces(o, args[k]));
      var s1, a1 := ArgsRead(e, o, b, s, m, args[..k], tokens[..|done|]);
      RunThen(e, Fresh(b, s), tokens, |done|, Fresh(b, s1));
      var v;
      s', v := ArgReads(e, o, b, s1, m.(args := m.args + a1), args[k], tokens[|done|..]);
      args' := a1 + [v];
      assert m.args + args' == m.args + a1 + [v];
      ErasedSnoc(args[..k], args[k], a1, v);
      assert args[..k] + [args[k]] == args;
    }
  }

  lemma ErasedSnoc(a: seq<Value>, v: Value, a': seq<Value>, v': Value)
    requires EraseValues(a) == EraseValues(a') && EraseValue(v) == EraseValue(v')
    ensures EraseValues(a + [v]) == EraseValues(a' + [v'])
  {
    assert |EraseValues(a)| == |a| == |EraseValues(a')| == |a'|;
    forall i | 0 <= i < |a|
      ensures EraseValue(a[i]) == EraseValue(a'[i])
    {
      assert EraseValues(a)[i] == EraseValues(a')[i];
    }
  }

  // ----- properties -----

  lemma KeyReads(e: Env, b: Config, s: Spot, m: Node, key: Token, assign: Token)
    requires Idle(b) && Settled(e, s) == Some(m) && IsIdentifier(key.id) && assign.id.Equals?
    ensures Run(e, Spaced(b, s), [key, assign]) == Some(In(b, AtPropValue, Spot(m, key, NO_TOKEN), false))
  {
    hide Step, Spaced;
    PlainEntryReads(e, b, s, key, m);
    RunHead(e, Spaced(b, s), [key, assign], Fresh(b, Spot(m, key, NO_TOKEN)));
    assert [key, assign][1..] == [assign];
    RunOne(e, Fresh(b, Spot(m, key, NO_TOKEN)), assign);
    EqualsReads(e, b, m, key, assign);
  }

  lemma EqualsReads(e: Env, b: Config, m: Node, key: Token, assign: Token)
    requires Idle(b) && IsIdentifier(key.id) && assign.id.Equals?
    ensures Step(e, Fresh(b, Spot(m, key, NO_TOKEN)), assign) == Some(In(b, AtPropValue, Spot(m, key, NO_TOKEN), false))
  {}

  lemma PropValueReads(e: Env, b: Config, m: Node, key: Token, typ: Token, t: Token, k: Content, v: Value)
    requires Idle(b) && IsValue(t.id) && e.decode(key) == Some(k) && ValueOf(e.decode, t, typ) == Some(v)
    ensures Step(e, In(b, AtPropValue, Spot(m, key, typ), false), t)
         == Some(Fresh(b, Spot(m.(props := Put(m.props, KeyText(k), v)), NO_TOKEN, NO_TOKEN)))
  {}

  lemma PropAnnotationOpens(e: Env, b: Config, s: Spot, t: Token)
    requires Idle(b) && t.id.ParensOpen?
    ensures Step(e, In(b, AtPropValue, s, false), t) == Some(In(b, AtPropValue, s, false).(annotation := Wanted))
  {}

  /** The value of a property, annotated or not. */
  lemma PropValuePiecesRead(e: Env, o: Options, b: Config, m: Node, key: Token, k: Content, v: Value, tokens: seq<Token>) returns (v': Value)
    requires Idle(b) && !o.preserve && ReadableValue(e, o, v) && e.decode(key) == Some(k)
    requires Matches(tokens, ValuePieces(o, v))
    ensures Run(e, In(b, AtPropValue, Spot(m, key, NO_TOKEN), false), tokens)
         == Some(Fresh(b, Spot(m.(props := Put(m.props, KeyText(k), v')), NO_TOKEN, NO_TOKEN)))
    ensures EraseValue(v') == EraseValue(v)
  {
    hide Step, Fresh;
    var c := In(b, AtPropValue, Spot(m, key, NO_TOKEN), false);
    var last := tokens[|tokens| - 1];
    var p := o.spelling.value(v);
    assert ValuePieces(o, v)[|tokens| - 1] == p;
    assert e.decode(Token(p.id, p.data, last.offset)) == Some(v.content);
    if v.typ == [] {
      assert tokens == [last];
      v' := ValueOf(e.decode, last, NO_TOKEN).value;
      PropValueReads(e, b, m, key, NO_TOKEN, last, k, v');
      RunOne(e, c, last);
    } else {
      assert ValuePieces(o, v) == [PAREN_OPEN, o.spelling.typeName(v.typ), PAREN_SHUT, p];
      PropAnnotationOpens(e, b, Spot(m, key, NO_TOKEN), tokens[0]);
      RunHead(e, c, tokens, c.(annotation := Wanted));
      AnnotationReads(e, c.(annotation := Wanted), tokens[1], tokens[2]);
      assert tokens[1..][..2] == [tokens[1], tokens[2]];
      RunThen(e, c.(annotation := Wanted), tokens[1..], 2, In(b, AtPropValue, Spot(m, key, tokens[1]), false));
      assert tokens[1..][2..] == [last];
      v' := ValueOf(e.decode, last, tokens[1]).value;
      PropValueReads(e, b, m, key, tokens[1], last, k, v');
      RunOne(e, In(b, AtPropValue, Spot(m, key, tokens[1]), false), last);
    }
  }

  lemma PropReads(e: Env, o: Options, b: Config, s: Spot, m: Node, p: Prop, tokens: seq<Token>) returns (s': Spot, v': Value)
    requires Idle(b) && Settled(e, s) == Some(m) && !o.preserve && ReadableKey(e, o, p.key) && ReadableValue(e, o, p.value)
    requires Matches(tokens, [SPACE, o.spelling.key(p.key), ASSIGN] + ValuePieces(o, p.value))
    ensures Run(e, Fresh(b, s), tokens) == Some(Fresh(b, s'))
    ensures Settled(e, s') == Some(m.(props := Put(m.props, p.key, v'))) && EraseValue(v') == EraseValue(p.value)
  {
    hide Step, Fresh, Spaced;
    var head := [SPACE, o.spelling.key(p.key), ASSIGN];
    Split(tokens, head, ValuePieces(o, p.value));
    var key := tokens[1];
    SpaceReads(e, b, s, tokens[0]);
    RunHead(e, Fresh(b, s), tokens, Spaced(b, s));
    assert tokens[1..][..2] == [key, tokens[2]];
    KeyIs(tokens, o, p);
    KeyReads(e, b, s, m, key, tokens[2]);
    RunThen(e, Spaced(b, s), tokens[1..], 2, In(b, AtPropValue, Spot(m, key, NO_TOKEN), false));
    assert tokens[1..][2..] == tokens[3..];
    var c :| Decodes(e, o.spelling.key(p.key), c) && KeyText(c) == p.key;
    assert e.decode(Token(key.id, key.data, key.offset)) == Some(c);
    v' := PropValuePiecesRead(e, o, b, m, key, c, p.value, tokens[3..]);
    s' := Spot(m.(props := Put(m.props, p.key, v')), NO_TOKEN, NO_TOKEN);
  }

  lemma KeyIs(tokens: seq<Token>, o: Options, p: Prop)
    requires Matches(tokens, [SPACE, o.spelling.key(p.key), ASSIGN] + ValuePieces(o, p.value))
    ensures tokens[0].id.Whitespace? && tokens[1].id == o.spelling.key(p.key).id
    ensures tokens[1].data == o.spelling.key(p.key).data && tokens[2].id.Equals?
  {
    var all := [SPACE, o.spelling.key(p.key), ASSIGN] + ValuePieces(o, p.value);
    assert all[0] == SPACE && all[1] == o.spelling.key(p.key) && all[2] == ASSIGN;
  }

  lemma {:induction false} PropsRead(e: Env, o: Options, b: Config, s: Spot, m: Node, props: seq<Prop>, tokens: seq<Token>)
    returns (s': Spot, props': seq<Prop>)
    requires Idle(b) && Settled(e, s) == Some(m) && m.props == [] && !o.preserve
    requires forall i :: 0 <= i < |props| ==> ReadableKey(e, o, props[i].key) && ReadableValue(e, o, props[i].value)
    requires DistinctKeys(props)
    requires Matches(tokens, PropPieces(o, props))
    ensures Run(e, Fresh(b, s), tokens) == Some(Fresh(b, s'))
    ensures Settled(e, s') == Some(m.(props := props')) && EraseProps(props') == EraseProps(props)
    decreases |props|
  {
    hide Step, Fresh, Settled, ValuePieces, ReadableValue, ReadableKey, EraseProps, Idle;
    if props == [] {
      s', props' := s, [];
      assert tokens == [];
    } else {
      var k := |props| - 1;
      var done := PropPieces(o, props[..k]);
      var next := [SPACE, o.spelling.key(props[k].key), ASSIGN] + ValuePieces(o, props[k].value);
      assert PropPieces(o, props) == done + next;
      Split(tokens, done, next);
      var s1, p1 := PropsRead(e, o, b, s, m, props[..k], tokens[..|done|]);
      RunThen(e, Fresh(b, s), tokens, |done|, Fresh(b, s1));
      var v;
      s', v := PropReads(e, o, b, s1, m.(props := p1), props[k], tokens[|done|..]);
      props' := p1 + [Prop(props[k].key, v)];
      SameKeys(p1, props[..k]);
      PutFresh(p1, props[k].key, v);
      ErasedPropsSnoc(props[..k], props[k], p1, v);
      assert props[..k] + [props[k]] == props;
    }
  }

  lemma SameKeys(a: seq<Prop>, b: seq<Prop>)
    requires EraseProps(a) == EraseProps(b)
    ensures |a| == |b| && forall i :: 0 <= i < |a| ==> a[i].key == b[i].key && EraseValue(a[i].value) == EraseValue(b[i].value)
  {
    assert |EraseProps(a)| == |a| && |EraseProps(b)| == |b|;
    forall i | 0 <= i < |a|
      ensures a[i].key == b[i].key && EraseValue(a[i].value) == EraseValue(b[i].value)
    {
      assert EraseProps(a)[i] == EraseProps(b)[i];
    }
  }

  lemma ErasedPropsSnoc(a: seq<Prop>, p: Prop, a': seq<Prop>, v': Value)
    requires EraseProps(a) == EraseProps(a') && EraseValue(p.value) == EraseValue(v')
    ensures EraseProps(a + [p]) == EraseProps(a' + [Prop(p.key, v')])
  {
    SameKeys(a, a');
  }

  // ----- nodes and blocks -----

  /** d is c with the nodes ms added to its innermost level, ready for the next node. */
  ghost predicate Grown(c: Config, d: Config, ms: seq<Node>) {
    && Idle(d)
    && |d.blocks| == |c.blocks|
    && if c.blocks == [] then d.doc == c.doc + ms
       else
         var k := |c.blocks| - 1;
         && d.doc == c.doc
         && d.blocks[..k] == c.blocks[..k]
         && d.blocks[k] == WithChildren(c.blocks[k], ms)
  }

  function WithChildren(b: Block, ms: seq<Node>): Block {
    b.(owner := b.owner.(node := b.owner.node.(children := b.owner.node.children + ms)))
  }

  lemma GrownNothing(c: Config)
    requires Idle(c)
    ensures Grown(c, c, [])
  {
    if c.blocks == [] {
      assert c.doc + [] == c.doc;
    } else {
      var n := c.blocks[|c.blocks| - 1].owner.node;
      assert n.children + [] == n.children;
    }
  }

  lemma GrownTwice(a: Config, b: Config, c: Config, ms: seq<Node>, ns: seq<Node>)
    requires Grown(a, b, ms) && Grown(b, c, ns)
    ensures Grown(a, c, ms + ns)
  {
    if a.blocks == [] {
      assert a.doc + ms + ns == a.doc + (ms + ns);
    } else {
      var n := a.blocks[|a.blocks| - 1].owner.node;
      assert n.children + ms + ns == n.children + (ms + ns);
    }
  }

  /** Ending a node whose entries are all settled adds it to its level. */
  lemma EndGrows(e: Env, b: Config, st: NodeState, m: Node, seen: bool, end: nat)
    requires Idle(b)
    ensures var d := EndNode(e, In(b, st, Spot(m, NO_TOKEN, NO_TOKEN), seen), end);
            Grown(b, d, [Close(e, OpenNode(m, false, b.lastEnd), end)])
  {}

  lemma CloseErases(e: Env, o: OpenNode, end: nat)
    ensures Erase(Close(e, o, end)) == Erase(o.node)
  {}

  lemma LineFeedEnds(e: Env, b: Config, s: Spot, m: Node, t: Token)
    requires Idle(b) && Settled(e, s) == Some(m) && t.id.Newline?
    ensures Step(e, Fresh(b, s), t) == Some(EndNode(e, In(b, if s.ident.Valid() then AtArgProp else AtNode, Spot(m, NO_TOKEN, NO_TOKEN), false), t.offset + |t.data|))
  {}

  lemma NameReads(e: Env, b: Config, t: Token, typ: Token, v: Value)
    requires Idle(b) && IsIdentifier(t.id) && ValueOf(e.decode, t, NO_TOKEN) == Some(v) && (typ.Valid() || typ == NO_TOKEN)
    ensures Step(e, b.(typ := typ), t)
         == Some(Fresh(b, Spot(Node(v, if typ.Valid() then typ.data else [], [], [], [], None), NO_TOKEN, NO_TOKEN)))
  {}

  lemma NodeAnnotationOpens(e: Env, b: Config, t: Token)
    requires Idle(b) && t.id.ParensOpen?
    ensures Step(e, b, t) == Some(b.(annotation := Wanted))
  {}

  /** The name of a node, annotated or not. */
  lemma HeadReads(e: Env, o: Options, b: Config, n: Node, tokens: seq<Token>) returns (m: Node)
    requires Idle(b) && Readable(e, o, n) && Matches(tokens, HeadPieces(o, n))
    ensures Run(e, b, tokens) == Some(Fresh(b, Spot(m, NO_TOKEN, NO_TOKEN)))
    ensures m == Node(m.name, n.typ, [], [], [], None) && EraseValue(m.name) == EraseValue(n.name)
  {
    hide Step, Fresh;
    var last := tokens[|tokens| - 1];
    var p := o.spelling.name(n.name);
    assert HeadPieces(o, n)[|tokens| - 1] == p;
    assert e.decode(Token(p.id, p.data, last.offset)) == Some(n.name.content);
    var v := ValueOf(e.decode, last, NO_TOKEN).value;
    m := Node(v, n.typ, [], [], [], None);
    if n.typ == [] {
      assert tokens == [last];
      NameReads(e, b, last, NO_TOKEN, v);
      RunOne(e, b, last);
    } else {
      assert HeadPieces(o, n) == [PAREN_OPEN, o.spelling.typeName(n.typ), PAREN_SHUT, p];
      NodeAnnotationOpens(e, b, tokens[0]);
      RunHead(e, b, tokens, b.(annotation := Wanted));
      AnnotationReads(e, b.(annotation := Wanted), tokens[1], tokens[2]);
      assert tokens[1..][..2] == [tokens[1], tokens[2]];
      RunThen(e, b.(annotation := Wanted), tokens[1..], 2, b.(typ := tokens[1]));
      assert tokens[1..][2..] == [last];
      NameReads(e, b, last, tokens[1], v);
      RunOne(e, b.(typ := tokens[1]), last);
    }
  }

  lemma IndentReads(e: Env, o: Options, depth: nat, b: Config, tokens: seq<Token>)
    requires Idle(b) && Matches(tokens, Indentation(o, depth))
    ensures Run(e, b, tokens) == Some(b)
  {
    if tokens != [] {
      assert tokens == [tokens[0]];
      BlankReads(e, b, tokens[0]);
      RunOne(e, b, tokens[0]);
    }
  }

  lemma BlankReads(e: Env, b: Config, t: Token)
    requires Idle(b) && (t.id.Whitespace? || t.id.Newline?)
    ensures Step(e, b, t) == Some(b)
  {}

  /** Inside the block just opened after the entries of node m. */
  function Entered(b: Config, m: Node, st: NodeState, offset: nat): Config {
    b.(blocks := b.blocks + [Block(OpenNode(m, false, b.lastEnd), st, b.segments, b.lastEnd, offset + 1, false)],
       segments := [], lastEnd := offset + 1)
  }

  lemma OpenReads(e: Env, b: Config, s: Spot, m: Node, t: Token)
    requires Idle(b) && Settled(e, s) == Some(m) && t.id.BraceOpen?
    ensures Step(e, Spaced(b, s), t) == Some(Entered(b, m, if s.ident.Valid() then AtPostWS else AtParams, t.offset))
    ensures Idle(Entered(b, m, if s.ident.Valid() then AtPostWS else AtParams, t.offset))
  {}

  lemma ShutReads(e: Env, b: Config, m: Node, st: NodeState, offset: nat, c: Config, ms: seq<Node>, t: Token)
    requires Idle(b) && Grown(Entered(b, m, st, offset), c, ms) && t.id.BraceClose?
    ensures Step(e, c, t) == Some(In(b, st, Spot(m.(children := m.children + ms), NO_TOKEN, NO_TOKEN), true))
  {
    var a := Entered(b, m, st, offset);
    var k := |b.blocks|;
    assert a.blocks[..k] == b.blocks;
    assert c.blocks[..k] == b.blocks;
    assert c.blocks[k] == WithChildren(a.blocks[k], ms);
    assert c.doc == b.doc;
    assert Step(e, c, t) == Some(CloseBlock(c));
  }

  lemma LineFeedAfterBlock(e: Env, b: Config, st: NodeState, m: Node, t: Token)
    requires Idle(b) && (st == AtParams || st == AtPostWS) && t.id.Newline?
    ensures var c := In(b, st, Spot(m, NO_TOKEN, NO_TOKEN), true);
            Step(e, c, t) == Some(EndNode(e, c, t.offset + |t.data|))
  {}

  /** A printed child block gives the node its children. */
  lemma BlockReads(e: Env, o: Options, depth: nat, b: Config, s: Spot, m: Node, n: Node, tokens: seq<Token>)
    returns (st: NodeState, ms: seq<Node>)
    requires Idle(b) && Settled(e, s) == Some(m) && !o.preserve && Readable(e, o, n) && n.children != []
    requires Matches(tokens, BlockPieces(o, depth, n))
    ensures st == AtParams || st == AtPostWS
    ensures Run(e, Fresh(b, s), tokens) == Some(In(b, st, Spot(m.(children := m.children + ms), NO_TOKEN, NO_TOKEN), true))
    ensures EraseAll(ms) == EraseAll(n.children)
    decreases n, 0
  {
    st := if s.ident.Valid() then AtPostWS else AtParams;
    var kids, tail := NodesPieces(o, depth + 1, n.children), Indentation(o, depth) + [SHUT];
    var start := [SPACE, OPEN, LINE_FEED];
    BlockSplits(o, depth, n);
    Split(tokens, start, kids + tail);
    Split(tokens[3..], kids, tail);
    StartReads(e, b, s, m, st, tokens);
    hide Step, Run, Fresh, Settled, NodesPieces, Indentation, BlockPieces, EraseAll, Entered, Grown, Idle, Matches, Readable;
    var a := Entered(b, m, st, tokens[1].offset);
    var c;
    assert forall i :: 0 <= i < |n.children| ==> Readable(e, o, n.children[i]) by { ChildrenReadable(e, o, n); }
    c, ms := NodesRead(e, o, depth + 1, a, n.children, tokens[3..][..|kids|]);
    RunThen(e, a, tokens[3..], |kids|, c);
    TailReads(e, o, depth, b, m, st, tokens[1].offset, c, ms, tokens[3..][|kids|..]);
  }

  lemma ChildrenReadable(e: Env, o: Options, n: Node)
    requires Readable(e, o, n)
    ensures forall i :: 0 <= i < |n.children| ==> Readable(e, o, n.children[i])
  {}

  lemma BlockSplits(o: Options, depth: nat, n: Node)
    requires n.children != []
    ensures BlockPieces(o, depth, n) == [SPACE, OPEN, LINE_FEED] + (NodesPieces(o, depth + 1, n.children) + (Indentation(o, depth) + [SHUT]))
  {}

  lemma TailReads(e: Env, o: Options, depth: nat, b: Config, m: Node, st: NodeState, offset: nat, c: Config, ms: seq<Node>, tail: seq<Token>)
    requires Idle(b) && Grown(Entered(b, m, st, offset), c, ms) && Matches(tail, Indentation(o, depth) + [SHUT])
    ensures Run(e, c, tail) == Some(In(b, st, Spot(m.(children := m.children + ms), NO_TOKEN, NO_TOKEN), true))
  {
    var indent := Indentation(o, depth);
    Split(tail, indent, [SHUT]);
    var shut := tail[|indent|];
    assert tail[|indent|..] == [shut] && shut.id.BraceClose?;
    GrownIdle(Entered(b, m, st, offset), c, ms);
    hide Step, Run, Indentation, Grown, Entered, In, Idle, Matches;
    IndentReads(e, o, depth, c, tail[..|indent|]);
    RunThen(e, c, tail, |indent|, c);
    ShutReads(e, b, m, st, offset, c, ms, shut);
    RunOne(e, c, shut);
  }

  lemma StartReads(e: Env, b: Config, s: Spot, m: Node, st: NodeState, tokens: seq<Token>)
    requires Idle(b) && Settled(e, s) == Some(m) && |tokens| >= 3
    requires st == if s.ident.Valid() then AtPostWS else AtParams
    requires Matches(tokens[..3], [SPACE, OPEN, LINE_FEED])
    ensures Run(e, Fresh(b, s), tokens) == Run(e, Entered(b, m, st, tokens[1].offset), tokens[3..])
    ensures Idle(Entered(b, m, st, tokens[1].offset))
  {
    hide Step, Fresh, Spaced, Settled;
    var a := Entered(b, m, st, tokens[1].offset);
    assert tokens[..3][0] == tokens[0] && tokens[..3][1] == tokens[1] && tokens[..3][2] == tokens[2];
    SpaceReads(e, b, s, tokens[0]);
    RunHead(e, Fresh(b, s), tokens, Spaced(b, s));
    OpenReads(e, b, s, m, tokens[1]);
    RunHead(e, Spaced(b, s), tokens[1..], a);
    BlankReads(e, a, tokens[2]);
    RunHead(e, a, tokens[1..][1..], a);
    assert tokens[1..][1..][1..] == tokens[3..];
  }

  lemma ErasedSame(m: Node, n: Node)
    requires EraseValue(m.name) == EraseValue(n.name) && m.typ == n.typ && EraseValues(m.args) == EraseValues(n.args)
    requires EraseProps(m.props) == EraseProps(n.props) && EraseAll(m.children) == EraseAll(n.children)
    ensures Erase(m) == Erase(n)
  {}

  /** The indentation, the name and the entries of a printed node. */
  lemma EntriesRead(e: Env, o: Options, depth: nat, b: Config, n: Node, tokens: seq<Token>) returns (s: Spot, m: Node)
    requires Idle(b) && !o.preserve && Readable(e, o, n)
    requires Matches(tokens, Indentation(o, depth) + HeadPieces(o, n) + ArgPieces(o, n.args) + PropPieces(o, n.props))
    ensures Run(e, b, tokens) == Some(Fresh(b, s)) && Settled(e, s) == Some(m) && m.children == []
    ensures EraseValue(m.name) == EraseValue(n.name) && m.typ == n.typ
    ensures EraseValues(m.args) == EraseValues(n.args) && EraseProps(m.props) == EraseProps(n.props)
  {
    hide Step, Fresh, EraseValues, EraseProps, Indentation, HeadPieces, ArgPieces, PropPieces;
    var indent, head, args, props := Indentation(o, depth), HeadPieces(o, n), ArgPieces(o, n.args), PropPieces(o, n.props);
    Split(tokens, indent + head + args, props);
    var t3 := tokens[..|indent + head + args|];
    Split(t3, indent + head, args);
    var t2 := t3[..|indent + head|];
    Split(t2, indent, head);
    IndentReads(e, o, depth, b, t2[..|indent|]);
    RunThen(e, b, t2, |indent|, b);
    m := HeadReads(e, o, b, n, t2[|indent|..]);
    s := Spot(m, NO_TOKEN, NO_TOKEN);
    RunThen(e, b, t3, |indent + head|, Fresh(b, s));
    var a', p';
    s, a' := ArgsRead(e, o, b, s, m, n.args, t3[|indent + head|..]);
    m := m.(args := m.args + a');
    assert m.args == a';
    RunThen(e, b, tokens, |indent + head + args|, Fresh(b, s));
    s, p' := PropsRead(e, o, b, s, m, n.props, tokens[|indent + head + args|..]);
    m := m.(props := p');
  }

  /** Main step: a printed node, fed to the parser, adds one node with the same contents. */
  lemma NodeReads(e: Env, o: Options, depth: nat, b: Config, n: Node, tokens: seq<Token>) returns (d: Config, m: Node)
    requires Idle(b) && !o.preserve && Readable(e, o, n)
    requires Matches(tokens, NodePieces(o, depth, n))
    ensures Run(e, b, tokens) == Some(d) && Grown(b, d, [m]) && Erase(m) == Erase(n)
    decreases n, 1
  {
    hide Step, Fresh, EraseValues, EraseProps, EraseAll, Indentation, HeadPieces, ArgPieces, PropPieces, BlockPieces,
      EndNode, Close, Erase, Grown;
    var entries := Indentation(o, depth) + HeadPieces(o, n) + ArgPieces(o, n.args) + PropPieces(o, n.props);
    var block := BlockPieces(o, depth, n);
    assert NodePieces(o, depth, n) == entries + block + [LINE_FEED];
    Split(tokens, entries + block, [LINE_FEED]);
    var body := tokens[..|entries + block|];
    var last := tokens[|entries + block|];
    assert tokens[|entries + block|..] == [last];
    Split(body, entries, block);
    var s, m0 := EntriesRead(e, o, depth, b, n, body[..|entries|]);
    RunThen(e, b, body, |entries|, Fresh(b, s));
    if n.children == [] {
      assert block == [] by { NoBlock(o, depth, n); }
      assert body[|entries|..] == [];
      RunThen(e, b, tokens, |entries + block|, Fresh(b, s));
      RunOne(e, Fresh(b, s), last);
      LineFeedEnds(e, b, s, m0, last);
      m := EndsWith(e, b, if s.ident.Valid() then AtArgProp else AtNode, m0, false, last.offset + |last.data|);
      d := Step(e, Fresh(b, s), last).value;
      assert EraseAll(m0.children) == EraseAll(n.children);
      ErasedSame(m0, n);
    } else {
      var st, ms := BlockReads(e, o, depth, b, s, m0, n, body[|entries|..]);
      m0 := m0.(children := m0.children + ms);
      assert m0.children == ms;
      var c := In(b, st, Spot(m0, NO_TOKEN, NO_TOKEN), true);
      RunThen(e, b, tokens, |entries + block|, c);
      RunOne(e, c, last);
      LineFeedAfterBlock(e, b, st, m0, last);
      m := EndsWith(e, b, st, m0, true, last.offset + |last.data|);
      d := Step(e, c, last).value;
      ErasedSame(m0, n);
    }
  }

  lemma NoBlock(o: Options, depth: nat, n: Node)
    requires n.children == []
    ensures BlockPieces(o, depth, n) == []
  {}

  lemma EndsWith(e: Env, b: Config, st: NodeState, m0: Node, seen: bool, end: nat) returns (m: Node)
    requires Idle(b)
    ensures Grown(b, EndNode(e, In(b, st, Spot(m0, NO_TOKEN, NO_TOKEN), seen), end), [m]) && Erase(m) == Erase(m0)
  {
    hide Erase, EndNode;
    m := Close(e, OpenNode(m0, false, b.lastEnd), end);
    EndGrows(e, b, st, m0, seen, end);
    CloseErases(e, OpenNode(m0, false, b.lastEnd), end);
  }

  lemma NodesRead(e: Env, o: Options, depth: nat, b: Config, nodes: seq<Node>, tokens: seq<Token>) returns (d: Config, ms: seq<Node>)
    requires Idle(b) && !o.preserve && (forall i :: 0 <= i < |nodes| ==> Readable(e, o, nodes[i]))
    requires Matches(tokens, NodesPieces(o, depth, nodes))
    ensures Run(e, b, tokens) == Some(d) && Grown(b, d, ms) && EraseAll(ms) == EraseAll(nodes)
    decreases nodes
  {
    hide Step, Erase, Grown, NodePieces, Readable;
    if nodes == [] {
      d, ms := b, [];
      assert tokens == [];
      GrownNothing(b);
    } else {
      var k := |nodes| - 1;
      var done := NodesPieces(o, depth, nodes[..k]);
      Split(tokens, done, NodePieces(o, depth, nodes[k]));
      var c, m;
      c, ms := NodesRead(e, o, depth, b, nodes[..k], tokens[..|done|]);
      assert Idle(c) by { GrownIdle(b, c, ms); }
      RunThen(e, b, tokens, |done|, c);
      d, m := NodeReads(e, o, depth, c, nodes[k], tokens[|done|..]);
      GrownTwice(b, c, d, ms, [m]);
      EraseAllSnoc(ms, m);
      ms := ms + [m];
    }
  }

  lemma GrownIdle(b: Config, c: Config, ms: seq<Node>)
    requires Grown(b, c, ms)
    ensures Idle(c)
  {}

  /** Main result: for every list of trees whose names, types, keys and values the spelling makes readable, the
      printed pieces followed by EOF are accepted, everything is closed, and the trees come back with the same
      names, types, arguments, properties and children, in the same order, at every depth. */
  lemma PrintedDocumentReadsBack(e: Env, o: Options, nodes: seq<Node>, tokens: seq<Token>)
    requires !o.preserve && forall i :: 0 <= i < |nodes| ==> Readable(e, o, nodes[i])
    requires Matches(tokens, NodesPieces(o, 0, nodes))
    ensures ParseAll(e, tokens).Some?
    ensures var d := ParseAll(e, tokens).value;
            d.blocks == [] && d.phase.Between? && EraseAll(Visible(d)) == EraseAll(nodes)
  {
    var d, ms := NodesRead(e, o, 0, INITIAL, nodes, tokens);
    RunAppend(e, INITIAL, tokens, [EOF_TOKEN]);
    RunOne(e, d, EOF_TOKEN);
    assert Step(e, d, EOF_TOKEN) == Some(d);
    assert d.doc == ms;
  }
}
