// The parser computes what the grammar means.
module Reading {
  import opened Basics
  import opened Tokens
  import opened Documents
  import opened Machine
  import opened Grammar
  import Laws
  import Sourceless

  lemma Chain(e: Env, c: Config, a: seq<Token>, rest: seq<Token>, m: Config)
    requires Run(e, c, a) == Some(m)
    ensures Run(e, c, a + rest) == Run(e, m, rest)
  {
    hide Run;
    RunAppend(e, c, a, rest);
  }

  lemma ChainOne(e: Env, c: Config, t: Token, rest: seq<Token>, m: Config)
    requires Step(e, c, t) == Some(m)
    ensures Run(e, c, [t] + rest) == Run(e, m, rest)
  {
    hide Step;
    RunOne(e, c, t);
    Chain(e, c, [t], rest, m);
  }

  lemma RunNothing(e: Env, c: Config)
    ensures Run(e, c, []) == Some(c)
  {}

  // ----- where the parser is -----

  /** Between nodes, with nothing pending. */
  predicate Ready(c: Config) {
    c.phase.Between? && c.annotation.NoAnnotation? && c.ident == NO_TOKEN && c.typ == NO_TOKEN && !c.cont && !c.skipNode && !c.skipEntry
  }

  /** A value that may still become a key, with its annotation, and whether it is slashdashed. */
  datatype Pending = Nothing | Pending(ident: Token, typ: Token, drop: bool)

  predicate IsPending(e: Env, p: Pending) {
    p.Pending? ==> p.ident.Valid() && (!p.drop ==> e.decode(p.ident).Some?)
  }

  function Place(b: Config, o: OpenNode, st: NodeState, p: Pending, seen: bool): Config {
    b.(phase := Inside(o, st, seen), ident := if p.Pending? then p.ident else NO_TOKEN, typ := if p.Pending? then p.typ else NO_TOKEN,
       skipEntry := p.Pending? && p.drop)
  }

  /** The node once the pending value is an argument. */
  function Settled(e: Env, n: Node, p: Pending): Node
    requires IsPending(e, p)
  {
    if p.Pending? && !p.drop then n.(args := n.args + [ValueOf(e.decode, p.ident, p.typ).value]) else n
  }

  function SettledIn(e: Env, o: OpenNode, p: Pending): OpenNode
    requires IsPending(e, p)
  {
    o.(node := Settled(e, o.node, p))
  }

  /** Directly behind a name or an entry, and behind whitespace. */
  function Fresh(b: Config, o: OpenNode, p: Pending): Config { Place(b, o, if p.Nothing? then AtNode else AtArgProp, p, false) }
  function Spaced(b: Config, o: OpenNode, p: Pending): Config { Place(b, o, if p.Nothing? then AtParams else AtPostWS, p, false) }

  /** In front of a value with nothing pending, but possibly its annotation and a slashdash. */
  function Params(b: Config, o: OpenNode, typ: Token, drop: bool, seen: bool): Config {
    b.(phase := Inside(o, AtParams, seen), typ := typ, skipEntry := drop)
  }

  // ----- whitespace -----

  /** Where trivia are skipped. */
  predicate Skipping(c: Config) {
    c.phase.Inside? && c.annotation.NoAnnotation? && !c.cont && (c.phase.st == AtParams || c.phase.st == AtPostWS || c.phase.st == AtPropValue)
  }

  lemma BlankIsSkipped(e: Env, c: Config, t: Token)
    requires Skipping(c) && (t.id.Whitespace? || t.id.MultiLineComment? || (t.id.Newline? && c.phase.st == AtParams && c.skipEntry))
    ensures Step(e, c, t) == Some(c)
  {}

  lemma {:induction false} TriviaAreSkipped(e: Env, c: Config, space: seq<Trivium>)
    requires Skipping(c)
    requires forall k :: 0 <= k < |space| ==>
      IsTrivium(space[k]) || (c.phase.st == AtParams && c.skipEntry && space[k].Blank? && space[k].t.id.Newline?)
    ensures Run(e, c, TriviaTokens(space)) == Some(c)
    decreases |space|
  {
    hide Step, Run;
    if space == [] {
      RunNothing(e, c);
    } else {
      assert forall k :: 0 <= k < |space[1..]| ==> space[1..][k] == space[k + 1];
      match space[0] {
        case Blank(t) =>
          BlankIsSkipped(e, c, t);
          ChainOne(e, c, t, TriviaTokens(space[1..]), c);
        case Escline(slash, fill, newline) =>
          Laws.EsclineIsNothing(e, c, fill, slash, newline);
          Chain(e, c, [slash] + fill + [newline], TriviaTokens(space[1..]), c);
      }
      TriviaAreSkipped(e, c, space[1..]);
    }
  }

  /** Where a node stands behind a gap. */
  function Behind(st: NodeState): NodeState { if st == AtNode || st == AtParams then AtParams else AtPostWS }

  predicate Takes(st: NodeState) { st == AtNode || st == AtParams || st == AtArgProp || st == AtPostWS }

  lemma GapStarts(e: Env, b: Config, o: OpenNode, st: NodeState, p: Pending, seen: bool, t: Token)
    requires Ready(b) && Takes(st) && t.id.Whitespace?
    ensures Step(e, Place(b, o, st, p, seen), t) == Some(Place(b, o, Behind(st), p, seen))
  {}

  lemma GapIsRead(e: Env, b: Config, o: OpenNode, st: NodeState, p: Pending, seen: bool, gap: Gap)
    requires Ready(b) && Takes(st) && IsGap(gap)
    ensures Run(e, Place(b, o, st, p, seen), GapTokens(gap)) == Some(Place(b, o, Behind(st), p, seen))
  {
    hide Step, Run;
    GapStarts(e, b, o, st, p, seen, gap.first);
    TriviaAreSkipped(e, Place(b, o, Behind(st), p, seen), gap.more);
    ChainOne(e, Place(b, o, st, p, seen), gap.first, TriviaTokens(gap.more), Place(b, o, Behind(st), p, seen));
  }

  // ----- annotations -----

  lemma {:induction false} FillIsSkipped(e: Env, c: Config, fill: seq<Token>)
    requires (!c.annotation.NoAnnotation? || c.phase.Between?) && !c.cont && Fill(fill)
    ensures Run(e, c, fill) == Some(c)
    decreases |fill|
  {
    if fill != [] {
      assert Step(e, c, fill[0]) == Some(c);
      FillIsSkipped(e, c, fill[1..]);
    }
  }

  predicate MayAnnotate(c: Config) {
    !c.cont && c.annotation.NoAnnotation? && (c.phase.Between? || (c.phase.Inside? && (c.phase.st == AtParams || c.phase.st == AtPropValue)))
  }

  lemma AnnotationIsRead(e: Env, c: Config, a: Option<Annotated>)
    requires MayAnnotate(c) && IsAnnotation(a)
    ensures Run(e, c, AnnotationTokens(a)) == Some(if a.Some? then c.(typ := a.value.name) else c)
  {
    if a.Some? {
      var x := a.value;
      var c1, c2, c3 := c.(annotation := Wanted), c.(annotation := Got, typ := x.name), c.(typ := x.name);
      assert Step(e, c, x.open) == Some(c1) && Step(e, c1, x.name) == Some(c2) && Step(e, c2, x.shut) == Some(c3);
      hide Step, Run;
      FillIsSkipped(e, c1, x.before);
      FillIsSkipped(e, c2, x.behind);
      ChainOne(e, c, x.open, x.before + ([x.name] + (x.behind + [x.shut])), c1);
      Chain(e, c1, x.before, [x.name] + (x.behind + [x.shut]), c1);
      ChainOne(e, c1, x.name, x.behind + [x.shut], c2);
      Chain(e, c2, x.behind, [x.shut], c2);
      RunOne(e, c2, x.shut);
    } else {
      RunNothing(e, c);
    }
  }

  // ----- entries -----

  lemma ValueFollows(e: Env, b: Config, o: OpenNode, typ: Token, drop: bool, t: Token)
    requires Ready(b) && IsValue(t.id) && !t.id.SuffixedDecimal?
    ensures Step(e, Params(b, o, typ, drop, false), t) == Some(Fresh(b, o, Pending(t, typ, drop)))
  {}

  lemma LiteralIsRead(e: Env, b: Config, o: OpenNode, drop: bool, l: Literal)
    requires Ready(b) && IsLiteral(l)
    ensures Run(e, Params(b, o, NO_TOKEN, drop, false), LiteralTokens(l)) == Some(Fresh(b, o, Pending(l.value, TypeOf(l.annotation), drop)))
  {
    hide Step, Run, Fresh;
    var c := Params(b, o, NO_TOKEN, drop, false);
    var d := Params(b, o, TypeOf(l.annotation), drop, false);
    AnnotationIsRead(e, c, l.annotation);
    Chain(e, c, AnnotationTokens(l.annotation), TriviaTokens(l.space) + [l.value], d);
    TriviaAreSkipped(e, d, l.space);
    Chain(e, d, TriviaTokens(l.space), [l.value], d);
    ValueFollows(e, b, o, TypeOf(l.annotation), drop, l.value);
    RunOne(e, d, l.value);
  }

  /** A number with a suffix is an argument at once, and any annotation in front of it is dropped. */
  lemma SuffixedIsRead(e: Env, b: Config, o: OpenNode, typ: Token, t: Token)
    requires Ready(b) && t.id.SuffixedDecimal? && e.decode(t).Some?
    ensures Step(e, Params(b, o, typ, false, false), t)
      == Some(Params(b, o.(node := o.node.(args := o.node.args + [Meant(e.decode, t, None)])), NO_TOKEN, false, false))
    ensures Step(e, Params(b, o, typ, true, false), t) == Some(Params(b, o, NO_TOKEN, false, false))
  {}

  lemma EqualsFollows(e: Env, b: Config, o: OpenNode, key: Token, drop: bool, st: NodeState, t: Token)
    requires Ready(b) && IsIdentifier(key.id) && (st == AtArgProp || st == AtPostWS) && t.id.Equals?
    ensures Step(e, Place(b, o, st, Pending(key, NO_TOKEN, drop), false), t) == Some(Place(b, o, AtPropValue, Pending(key, NO_TOKEN, drop), false))
  {}

  lemma PropertyEnds(e: Env, b: Config, o: OpenNode, key: Token, typ: Token, drop: bool, t: Token)
    requires Ready(b) && IsValue(t.id) && (!drop ==> e.decode(key).Some? && e.decode(t).Some?)
    ensures Step(e, Place(b, o, AtPropValue, Pending(key, typ, drop), false), t) ==
      Some(Fresh(b, if drop then o else o.(node := o.node.(props := Put(o.node.props, KeyText(e.decode(key).value), ValueOf(e.decode, t, typ).value))), Nothing))
  {}

  /** The node and what is pending, behind an entry. */
  function Behold(e: Env, o: OpenNode, drop: bool, x: Entry): (OpenNode, Pending)
    requires !drop ==> e.decode(x.literal.value).Some? && (x.Property? ==> e.decode(x.key).Some?)
  {
    if x.Arg? then (o, Pending(x.literal.value, TypeOf(x.literal.annotation), drop))
    else (if drop then o else o.(node := o.node.(props := Put(o.node.props, KeyText(e.decode(x.key).value),
            ValueOf(e.decode, x.literal.value, TypeOf(x.literal.annotation)).value))), Nothing)
  }

  lemma PropertyIsRead(e: Env, b: Config, o: OpenNode, drop: bool, x: Entry)
    requires Ready(b) && IsEntry(x) && x.Property? && (!drop ==> e.decode(x.literal.value).Some? && e.decode(x.key).Some?)
    ensures Run(e, Params(b, o, NO_TOKEN, drop, false), EntryTokens(x)) == Some(Fresh(b, Behold(e, o, drop, x).0, Behold(e, o, drop, x).1))
  {
    hide Step, Run, Fresh;
    var key, l := x.key, x.literal;
    var p := Pending(key, NO_TOKEN, drop);
    var st := if x.mid.Some? then AtPostWS else AtArgProp;
    var c, d := Params(b, o, NO_TOKEN, drop, false), Place(b, o, AtArgProp, p, false);
    var f, g, h := Place(b, o, st, p, false), Place(b, o, AtPropValue, p, false), Place(b, o, AtPropValue, p.(typ := TypeOf(l.annotation)), false);
    ValueFollows(e, b, o, NO_TOKEN, drop, key);
    FreshIs(b, o, p);
    ChainOne(e, c, key, GapIfAny(x.mid) + ([x.equals] + (TriviaTokens(x.space) + LiteralTokens(l))), d);
    if x.mid.Some? { GapIsRead(e, b, o, AtArgProp, p, false, x.mid.value); } else { RunNothing(e, d); }
    Chain(e, d, GapIfAny(x.mid), [x.equals] + (TriviaTokens(x.space) + LiteralTokens(l)), f);
    EqualsFollows(e, b, o, key, drop, st, x.equals);
    ChainOne(e, f, x.equals, TriviaTokens(x.space) + LiteralTokens(l), g);
    TriviaAreSkipped(e, g, x.space);
    Chain(e, g, TriviaTokens(x.space), LiteralTokens(l), g);
    AnnotationIsRead(e, g, l.annotation);
    Chain(e, g, AnnotationTokens(l.annotation), TriviaTokens(l.space) + [l.value], h);
    TriviaAreSkipped(e, h, l.space);
    Chain(e, h, TriviaTokens(l.space), [l.value], h);
    PropertyEnds(e, b, o, key, TypeOf(l.annotation), drop, l.value);
    RunOne(e, h, l.value);
  }

  lemma FreshIs(b: Config, o: OpenNode, p: Pending)
    ensures Fresh(b, o, p) == Place(b, o, if p.Nothing? then AtNode else AtArgProp, p, false)
  {}

  lemma EntryIsRead(e: Env, b: Config, o: OpenNode, drop: bool, x: Entry)
    requires Ready(b) && IsEntry(x) && (!drop ==> e.decode(x.literal.value).Some? && (x.Property? ==> e.decode(x.key).Some?))
    ensures Run(e, Params(b, o, NO_TOKEN, drop, false), EntryTokens(x)) == Some(Fresh(b, Behold(e, o, drop, x).0, Behold(e, o, drop, x).1))
  {
    if x.Arg? { LiteralIsRead(e, b, o, drop, x.literal); } else { PropertyIsRead(e, b, o, drop, x); }
  }

  /** What shows that the pending value is an argument finds the node as if it had been one. */
  lemma SpacedIsParams(e: Env, b: Config, o: OpenNode, p: Pending, t: Token)
    requires Ready(b) && IsPending(e, p) && (t.id.ParensOpen? || (IsValue(t.id) && !t.id.SuffixedDecimal?))
    ensures Step(e, Spaced(b, o, p), t) == Step(e, Params(b, SettledIn(e, o, p), NO_TOKEN, false, false), t)
  {}

  lemma SlashIsRead(e: Env, b: Config, o: OpenNode, st: NodeState, p: Pending, seen: bool, t: Token)
    requires Ready(b) && IsPending(e, p) && t.id.TokenComment? && (st == AtPostWS || (st == AtParams && p.Nothing?))
    ensures Step(e, Place(b, o, st, p, seen), t) == Some(Params(b, SettledIn(e, o, p), NO_TOKEN, true, seen))
  {}

  lemma MeantIs(e: Env, t: Token, a: Option<Annotated>)
    requires IsAnnotation(a) && e.decode(t).Some?
    ensures ValueOf(e.decode, t, TypeOf(a)) == Some(Meant(e.decode, t, a))
  {}

  /** The node with an entry, unless it is slashdashed. */
  function With(e: Env, n: Node, drop: bool, x: Entry): Node
    requires !drop ==> e.decode(x.literal.value).Some? && (x.Property? ==> e.decode(x.key).Some?)
  {
    if drop then n else WithEntry(e.decode, n, x)
  }

  lemma BeheldIs(e: Env, o: OpenNode, drop: bool, x: Entry)
    requires IsEntry(x) && (!drop ==> e.decode(x.literal.value).Some? && (x.Property? ==> e.decode(x.key).Some?))
    ensures var (o2, p2) := Behold(e, o, drop, x);
      IsPending(e, p2) && o2 == o.(node := o2.node) && Settled(e, o2.node, p2) == With(e, o.node, drop, x)
  {
    if !drop { MeantIs(e, x.literal.value, x.literal.annotation); }
  }

  /** The first token of an entry. */
  lemma EntryStarts(x: Entry)
    requires IsEntry(x)
    ensures EntryTokens(x) != []
    ensures var t := EntryTokens(x)[0]; t.id.ParensOpen? || (IsValue(t.id) && !t.id.SuffixedDecimal?)
  {
    assert x.Arg? && x.literal.annotation.None? ==> TriviaTokens(x.literal.space) == [];
  }

  lemma RunSame(e: Env, c: Config, d: Config, tokens: seq<Token>)
    requires tokens != [] && Step(e, c, tokens[0]) == Step(e, d, tokens[0])
    ensures Run(e, c, tokens) == Run(e, d, tokens)
  {
    hide Step;
  }

  lemma ItemIsRead(e: Env, b: Config, o: OpenNode, p: Pending, i: Item) returns (o2: OpenNode, p2: Pending)
    requires Ready(b) && IsPending(e, p) && IsItem(e.decode, i)
    ensures Run(e, Fresh(b, o, p), ItemTokens(i)) == Some(Fresh(b, o2, p2))
    ensures IsPending(e, p2) && o2 == o.(node := o2.node)
    ensures Settled(e, o2.node, p2) == With(e, Settled(e, o.node, p), i.slash.Some?, i.entry)
  {
    hide Step, Run, Settled, With, IsPending, IsEntry, EntryTokens, GapTokens, IsGap;
    var n := SettledIn(e, o, p);
    var drop := i.slash.Some?;
    var c, d := Spaced(b, o, p), Params(b, n, NO_TOKEN, drop, false);
    FreshIs(b, o, p);
    GapIsRead(e, b, o, if p.Nothing? then AtNode else AtArgProp, p, false, i.gap);
    Chain(e, Fresh(b, o, p), GapTokens(i.gap), SlashTokens(i.slash) + EntryTokens(i.entry), c);
    if drop {
      var s := i.slash.value;
      SlashIsRead(e, b, o, if p.Nothing? then AtParams else AtPostWS, p, false, s.token);
      ChainOne(e, c, s.token, TriviaTokens(s.space) + EntryTokens(i.entry), d);
      assert SlashTokens(i.slash) + EntryTokens(i.entry) == [s.token] + (TriviaTokens(s.space) + EntryTokens(i.entry));
      TriviaAreSkipped(e, d, s.space);
      Chain(e, d, TriviaTokens(s.space), EntryTokens(i.entry), d);
    } else {
      assert SlashTokens(i.slash) + EntryTokens(i.entry) == EntryTokens(i.entry);
      EntryStarts(i.entry);
      SpacedIsParams(e, b, o, p, EntryTokens(i.entry)[0]);
      RunSame(e, c, d, EntryTokens(i.entry));
    }
    EntryIsRead(e, b, n, drop, i.entry);
    BeheldIs(e, n, drop, i.entry);
    o2, p2 := Behold(e, n, drop, i.entry).0, Behold(e, n, drop, i.entry).1;
  }

  lemma {:induction false} ItemsAreRead(e: Env, b: Config, o: OpenNode, p: Pending, items: seq<Item>) returns (o2: OpenNode, p2: Pending)
    requires Ready(b) && IsPending(e, p) && AreItems(e.decode, items)
    ensures Run(e, Fresh(b, o, p), ItemsTokens(items)) == Some(Fresh(b, o2, p2))
    ensures IsPending(e, p2) && o2 == o.(node := o2.node)
    ensures Settled(e, o2.node, p2) == WithItems(e.decode, Settled(e, o.node, p), items)
    decreases |items|
  {
    hide Step, Run, Settled, Fresh, IsItem, ItemTokens, WithEntry, IsPending;
    if items == [] {
      RunNothing(e, Fresh(b, o, p));
      o2, p2 := o, p;
    } else {
      assert IsItem(e.decode, items[0]) && forall k :: 0 <= k < |items[1..]| ==> items[1..][k] == items[k + 1];
      var o1, p1 := ItemIsRead(e, b, o, p, items[0]);
      Chain(e, Fresh(b, o, p), ItemTokens(items[0]), ItemsTokens(items[1..]), Fresh(b, o1, p1));
      o2, p2 := ItemsAreRead(e, b, o1, p1, items[1..]);
    }
  }

  // ----- the beginning of a node -----

  lemma {:induction false} LooseIsSkipped(e: Env, c: Config, tokens: seq<Token>)
    requires c.phase.Between? && c.annotation.NoAnnotation? && !c.cont && c.typ == NO_TOKEN && Loose(tokens)
    ensures Run(e, c, tokens) == Some(c)
    decreases |tokens|
  {
    if tokens != [] {
      assert Step(e, c, tokens[0]) == Some(c);
      LooseIsSkipped(e, c, tokens[1..]);
    }
  }

  /** The node as its name starts it. */
  function Named(e: Env, l: Line): Node
    requires IsHead(e.decode, l)
  {
    Node(Meant(e.decode, l.name, None), if l.annotation.Some? then l.annotation.value.name.data else [], [], [], [], None)
  }

  lemma NameStarts(e: Env, b: Config, l: Line)
    requires Ready(b) && IsHead(e.decode, l)
    ensures Step(e, b.(skipNode := l.slash.Some?, typ := TypeOf(l.annotation)), l.name)
      == Some(Fresh(b, OpenNode(Named(e, l), l.slash.Some? || InDropped(b.blocks), b.lastEnd), Nothing))
  {}

  lemma SlashStarts(e: Env, b: Config, t: Token)
    requires Ready(b) && t.id.TokenComment?
    ensures Step(e, b, t) == Some(b.(skipNode := true))
  {}

  lemma HeadIsRead(e: Env, b: Config, l: Line)
    requires Ready(b) && IsHead(e.decode, l)
    ensures Run(e, b, HeadTokens(l)) == Some(Fresh(b, OpenNode(Named(e, l), l.slash.Some? || InDropped(b.blocks), b.lastEnd), Nothing))
  {
    hide Step, Run, Fresh, Fill, Loose, InDropped;
    var slash := if l.slash.Some? then [l.slash.value] else [];
    var c := b.(skipNode := l.slash.Some?);
    var d := c.(typ := TypeOf(l.annotation));
    var r3 := l.space + [l.name];
    var r2 := AnnotationTokens(l.annotation) + r3;
    var r1 := l.more + r2;
    LooseIsSkipped(e, b, l.lead);
    Chain(e, b, l.lead, slash + r1, b);
    if l.slash.Some? {
      SlashStarts(e, b, l.slash.value);
      RunOne(e, b, l.slash.value);
    } else {
      RunNothing(e, b);
    }
    Chain(e, b, slash, r1, c);
    LooseIsSkipped(e, c, l.more);
    Chain(e, c, l.more, r2, c);
    AnnotationIsRead(e, c, l.annotation);
    Chain(e, c, AnnotationTokens(l.annotation), r3, d);
    FillIsSkipped(e, d, l.space);
    Chain(e, d, l.space, [l.name], d);
    NameStarts(e, b, l);
    RunOne(e, d, l.name);
  }

  // ----- the end of a node -----

  /** The same but for how the source is divided up. */
  predicate Same(c: Config, d: Config) {
    c.(segments := d.segments, lastEnd := d.lastEnd) == d
  }

  /** With these nodes at the innermost level. */
  function Added(b: Config, nodes: seq<Node>): Config {
    if b.blocks == [] then b.(doc := b.doc + nodes)
    else
      var k := |b.blocks| - 1;
      var x := b.blocks[k];
      b.(blocks := b.blocks[..k] + [x.(owner := x.owner.(node := x.owner.node.(children := x.owner.node.children + nodes)))])
  }

  lemma AddedNothing(b: Config)
    ensures Added(b, []) == b
  {
    if b.blocks == [] {
      assert b.doc + [] == b.doc;
    } else {
      var k := |b.blocks| - 1;
      assert b.blocks[k].owner.node.children + [] == b.blocks[k].owner.node.children;
      assert b.blocks[..k] + [b.blocks[k]] == b.blocks;
    }
  }

  lemma AddedMore(b: Config, c: Config, x: seq<Node>, y: seq<Node>)
    requires Same(Added(b, x), c)
    ensures Same(Added(b, x + y), Added(c, y)) && InDropped(Added(b, x).blocks) == InDropped(b.blocks)
  {
    if b.blocks == [] {
      assert b.doc + (x + y) == b.doc + x + y;
    } else {
      var k := |b.blocks| - 1;
      var kids := b.blocks[k].owner.node.children;
      assert kids + (x + y) == kids + x + y;
      assert c.blocks[..k] == b.blocks[..k];
    }
  }

  /** A node that has ended is added unless it is slashdashed. */
  function Finished(b: Config, o: OpenNode): Config { if o.ignored then b else Added(b, [o.node]) }

  /** What a place may hold while a node is read. */
  predicate IsPlace(e: Env, st: NodeState, p: Pending, seen: bool) {
    Takes(st) && IsPending(e, p) && (p.Pending? ==> (st == AtArgProp || st == AtPostWS) && !seen)
  }

  lemma EndIs(e: Env, c: Config, o: OpenNode, end: nat)
    requires c.phase.Inside? && c.phase.open == o && e.source == []
    ensures Same(Finished(c, o).(phase := Between), EndNode(e, c, end))
  {}

  lemma TerminatorEnds(e: Env, b: Config, o: OpenNode, st: NodeState, p: Pending, seen: bool, t: Token) returns (d: Config)
    requires Ready(b) && IsPlace(e, st, p, seen) && IsTerminator(t.id) && e.source == []
    ensures Step(e, Place(b, o, st, p, seen), t) == Some(d)
    ensures Ready(d) && Same(Finished(b, SettledIn(e, o, p)), d)
  {
    var settled := SettledIn(e, o, p);
    var c := Place(b, settled, st, Nothing, seen);
    d := EndNode(e, c, TokenEnd(e, t));
    EndsSettled(e, b, o, st, p, seen, t);
    EndIs(e, c, settled, TokenEnd(e, t));
    hide EndNode, Step, Settled;
  }

  lemma EndsSettled(e: Env, b: Config, o: OpenNode, st: NodeState, p: Pending, seen: bool, t: Token)
    requires Ready(b) && IsPlace(e, st, p, seen) && IsTerminator(t.id)
    ensures Step(e, Place(b, o, st, p, seen), t) == Some(EndNode(e, Place(b, SettledIn(e, o, p), st, Nothing, seen), TokenEnd(e, t)))
  {
    hide EndNode;
  }

  lemma CommentIsRead(e: Env, b: Config, o: OpenNode, st: NodeState, p: Pending, seen: bool, t: Token)
    requires Ready(b) && IsPlace(e, st, p, seen) && (st == AtParams || st == AtPostWS) && t.id.SingleLineComment?
    ensures Step(e, Place(b, o, st, p, seen), t) == Some(Place(b, SettledIn(e, o, p), AtEnd, Nothing, seen))
  {}

  lemma {:induction false} BlanksBehindComment(e: Env, b: Config, o: OpenNode, seen: bool, blanks: seq<Token>)
    requires Ready(b) && forall k :: 0 <= k < |blanks| ==> blanks[k].id.Whitespace?
    ensures Run(e, Place(b, o, AtEnd, Nothing, seen), blanks) == Some(Place(b, o, AtEnd, Nothing, seen))
    decreases |blanks|
  {
    if blanks != [] {
      assert Step(e, Place(b, o, AtEnd, Nothing, seen), blanks[0]) == Some(Place(b, o, AtEnd, Nothing, seen));
      BlanksBehindComment(e, b, o, seen, blanks[1..]);
    }
  }

  lemma LineEnds(e: Env, b: Config, o: OpenNode, seen: bool, t: Token) returns (d: Config)
    requires Ready(b) && (t.id.Newline? || t.id.EOF?) && e.source == []
    ensures Step(e, Place(b, o, AtEnd, Nothing, seen), t) == Some(d)
    ensures Ready(d) && Same(Finished(b, o), d)
  {
    var c := Place(b, o, AtEnd, Nothing, seen);
    d := EndNode(e, c, TokenEnd(e, t));
    EndIs(e, c, o, TokenEnd(e, t));
    hide EndNode;
  }

  lemma EndingIsRead(e: Env, b: Config, o: OpenNode, st: NodeState, p: Pending, seen: bool, x: Ending) returns (d: Config)
    requires Ready(b) && IsPlace(e, st, p, seen) && IsEnding(x) && !x.Unended? && e.source == []
    ensures Run(e, Place(b, o, st, p, seen), EndingTokens(x)) == Some(d)
    ensures Ready(d) && Same(Finished(b, SettledIn(e, o, p)), d)
  {
    hide Step, Run, Place, Settled, GapTokens, IsGap, Finished, Same;
    var c := Place(b, o, st, p, seen);
    match x
    case Ended(gap, t) =>
      var st2 := if gap.Some? then Behind(st) else st;
      if gap.Some? { GapIsRead(e, b, o, st, p, seen, gap.value); } else { RunNothing(e, c); }
      Chain(e, c, GapIfAny(gap), [t], Place(b, o, st2, p, seen));
      d := TerminatorEnds(e, b, o, st2, p, seen, t);
      RunOne(e, Place(b, o, st2, p, seen), t);
    case Commented(front, comment, blanks, t) =>
      var c1, c2 := Place(b, o, Behind(st), p, seen), Place(b, SettledIn(e, o, p), AtEnd, Nothing, seen);
      GapIsRead(e, b, o, st, p, seen, front);
      Chain(e, c, GapTokens(front), [comment] + (blanks + [t]), c1);
      CommentIsRead(e, b, o, Behind(st), p, seen, comment);
      ChainOne(e, c1, comment, blanks + [t], c2);
      BlanksBehindComment(e, b, SettledIn(e, o, p), seen, blanks);
      Chain(e, c2, blanks, [t], c2);
      d := LineEnds(e, b, SettledIn(e, o, p), seen, t);
      RunOne(e, c2, t);
  }

  // ----- child blocks -----

  /** Inside a block that has just been opened. */
  function Opened(b: Config, o: OpenNode, st: NodeState, drop: bool, t: Token): Config {
    b.(blocks := b.blocks + [Block(o, st, b.segments, b.lastEnd, t.offset + 1, drop || InDropped(b.blocks))], segments := [], lastEnd := t.offset + 1)
  }

  lemma OpenIsRead(e: Env, b: Config, o: OpenNode, st: NodeState, p: Pending, seen: bool, t: Token)
    requires Ready(b) && IsPlace(e, st, p, seen) && t.id.BraceOpen?
    ensures Step(e, Place(b, o, st, p, seen), t) == Some(Opened(b, SettledIn(e, o, p), st, false, t))
    ensures Ready(Opened(b, SettledIn(e, o, p), st, false, t))
  {}

  lemma DroppedOpenIsRead(e: Env, b: Config, o: OpenNode, seen: bool, t: Token)
    requires Ready(b) && t.id.BraceOpen?
    ensures Step(e, Params(b, o, NO_TOKEN, true, seen), t) == Some(Opened(b, o, AtParams, true, t))
    ensures Ready(Opened(b, o, AtParams, true, t))
  {}

  function Kids(dropped: bool, nodes: seq<Node>): seq<Node> { if dropped then [] else nodes }

  function WithKids(o: OpenNode, nodes: seq<Node>): OpenNode { o.(node := o.node.(children := o.node.children + nodes)) }

  /** What is read inside a block, once the block is shut. */
  lemma ShutIs(b: Config, o: OpenNode, st: NodeState, drop: bool, t: Token, nodes: seq<Node>, d: Config)
    requires Ready(b)
    requires var c := Opened(b, o, st, drop, t);
      Same(Added(c, Kids(InDropped(c.blocks), nodes)), d.(phase := Between))
    ensures d.blocks != [] && CloseBlock(d) == Place(b, WithKids(o, Kids(drop || InDropped(b.blocks), nodes)), st, Nothing, true)
  {
    var c := Opened(b, o, st, drop, t);
    var k := |b.blocks|;
    assert c.blocks[k].owner == o && c.blocks[..k] == b.blocks;
    assert d.blocks[..k] == b.blocks;
  }

  lemma ShutIsRead(e: Env, d: Config, t: Token)
    requires Ready(d) && d.blocks != [] && t.id.BraceClose?
    ensures Step(e, d, t) == Some(CloseBlock(d))
  {}

  lemma ShutEndsNode(e: Env, b: Config, o: OpenNode, p: Pending, t: Token) returns (d: Config)
    requires Ready(b) && b.blocks != [] && IsPending(e, p) && t.id.BraceClose? && e.source == []
    ensures Same(Finished(b, SettledIn(e, o, p)), d.(phase := Between)) && d.blocks != []
    ensures Step(e, Fresh(b, o, p), t) == Some(CloseBlock(d))
  {
    var c := Place(b, SettledIn(e, o, p), if p.Nothing? then AtNode else AtArgProp, Nothing, false);
    d := EndNode(e, c, t.offset);
    EndIs(e, c, SettledIn(e, o, p), t.offset);
    FinishedKeepsDepth(b, SettledIn(e, o, p));
    SettlesAndShuts(e, b, o, p, t);
    hide EndNode, Step, CloseBlock, Finished;
  }

  lemma FinishedKeepsDepth(b: Config, o: OpenNode)
    ensures |Finished(b, o).blocks| == |b.blocks|
  {}

  lemma SettlesAndShuts(e: Env, b: Config, o: OpenNode, p: Pending, t: Token)
    requires Ready(b) && b.blocks != [] && IsPending(e, p) && t.id.BraceClose?
    requires var c := Place(b, SettledIn(e, o, p), if p.Nothing? then AtNode else AtArgProp, Nothing, false);
      EndNode(e, c, t.offset).blocks != []
    ensures var c := Place(b, SettledIn(e, o, p), if p.Nothing? then AtNode else AtArgProp, Nothing, false);
      Step(e, Fresh(b, o, p), t) == Some(CloseBlock(EndNode(e, c, t.offset)))
  {
    hide EndNode, CloseBlock;
  }

  lemma {:induction false} ItemsKeepChildren(e: Env, n: Node, items: seq<Item>)
    requires AreItems(e.decode, items)
    ensures WithItems(e.decode, n, items).children == n.children
    decreases |items|
  {
    if items != [] {
      assert IsItem(e.decode, items[0]) && forall k :: 0 <= k < |items[1..]| ==> items[1..][k] == items[k + 1];
      ItemsKeepChildren(e, if items[0].slash.Some? then n else WithEntry(e.decode, n, items[0].entry), items[1..]);
    }
  }

  lemma FinishedIs(b: Config, o: OpenNode)
    ensures Finished(b, o) == Added(b, Kids(o.ignored, [o.node]))
  {
    AddedNothing(b);
  }

  lemma KidsAppend(dropped: bool, x: seq<Node>, y: seq<Node>)
    ensures Kids(dropped, x + y) == Kids(dropped, x) + Kids(dropped, y)
  {}

  // ----- documents -----

  /** The name, the entries and the blocks of a node. */
  lemma BodyIsRead(e: Env, b: Config, l: Line) returns (o: OpenNode, st: NodeState, p: Pending, seen: bool)
    requires Ready(b) && IsLine(e.decode, l) && e.source == []
    ensures Run(e, b, HeadTokens(l) + (ItemsTokens(l.items) + BlocksTokens(l.blocks))) == Some(Place(b, o, st, p, seen))
    ensures IsPlace(e, st, p, seen) && o.ignored == (l.slash.Some? || InDropped(b.blocks))
    ensures l.blocks == [] ==> Place(b, o, st, p, seen) == Fresh(b, o, p)
    ensures !InDropped(b.blocks) ==> Settled(e, o.node, p) == NodeOf(e.decode, l)
    decreases l, 0
  {
    hide Step, Run, Settled, IsPending, AreItems, IsHead, InDropped, WithItems, AreBlocks, NodesIn, HeadTokens, ItemsTokens, BlocksTokens, Meant;
    var o0 := OpenNode(Named(e, l), l.slash.Some? || InDropped(b.blocks), b.lastEnd);
    HeadIsRead(e, b, l);
    NothingIsPending(e, o0.node);
    var o1, p1 := ItemsAreRead(e, b, o0, Nothing, l.items);
    ItemsKeepChildren(e, Named(e, l), l.items);
    st := if p1.Nothing? then AtNode else AtArgProp;
    FreshIs(b, o1, p1);
    o, st, p, seen := BlocksAreRead(e, b, o1, st, p1, false, l.blocks);
    Chain(e, b, HeadTokens(l), ItemsTokens(l.items) + BlocksTokens(l.blocks), Fresh(b, o0, Nothing));
    Chain(e, Fresh(b, o0, Nothing), ItemsTokens(l.items), BlocksTokens(l.blocks), Fresh(b, o1, p1));
  }

  lemma NothingIsPending(e: Env, n: Node)
    ensures IsPending(e, Nothing) && Settled(e, n, Nothing) == n
  {}

  lemma LineIsRead(e: Env, b: Config, l: Line) returns (d: Config)
    requires Ready(b) && IsLine(e.decode, l) && !l.ending.Unended? && e.source == []
    ensures Run(e, b, LineTokens(l)) == Some(d)
    ensures Ready(d) && Same(Added(b, Kids(InDropped(b.blocks), Kids(l.slash.Some?, [NodeOf(e.decode, l)]))), d)
    decreases l, 1
  {
    hide Step, Run, Settled, IsPending, Takes, Place, Finished, Added, Same, Ready, NodeOf, InDropped, HeadTokens, EndingTokens;
    hide ItemsTokens, BlocksTokens, Fresh, AreItems, AreBlocks, IsHead, IsEnding;
    var o, st, p, seen := BodyIsRead(e, b, l);
    d := LineIsFinished(e, b, o, st, p, seen, l);
  }

  lemma LineIsFinished(e: Env, b: Config, o: OpenNode, st: NodeState, p: Pending, seen: bool, l: Line) returns (d: Config)
    requires Ready(b) && IsLine(e.decode, l) && !l.ending.Unended? && e.source == []
    requires Run(e, b, HeadTokens(l) + (ItemsTokens(l.items) + BlocksTokens(l.blocks))) == Some(Place(b, o, st, p, seen))
    requires IsPlace(e, st, p, seen) && o.ignored == (l.slash.Some? || InDropped(b.blocks))
    requires !InDropped(b.blocks) ==> Settled(e, o.node, p) == NodeOf(e.decode, l)
    ensures Run(e, b, LineTokens(l)) == Some(d)
    ensures Ready(d) && Same(Added(b, Kids(InDropped(b.blocks), Kids(l.slash.Some?, [NodeOf(e.decode, l)]))), d)
  {
    hide Step, Run, Settled, IsPending, Takes, Place, Finished, Added, Same, Ready, NodeOf, InDropped;
    var body, end := HeadTokens(l) + (ItemsTokens(l.items) + BlocksTokens(l.blocks)), EndingTokens(l.ending);
    LineIsBodyAndEnd(l);
    hide HeadTokens, EndingTokens, ItemsTokens, BlocksTokens, LineTokens;
    d := EndingIsRead(e, b, o, st, p, seen, l.ending);
    Chain(e, b, body, end, Place(b, o, st, p, seen));
    FinishedIs(b, SettledIn(e, o, p));
  }

  lemma LineIsBodyAndEnd(l: Line)
    ensures LineTokens(l) == (HeadTokens(l) + (ItemsTokens(l.items) + BlocksTokens(l.blocks))) + EndingTokens(l.ending)
  {
    hide HeadTokens, EndingTokens, ItemsTokens, BlocksTokens;
  }

  lemma LinesAreRead(e: Env, b: Config, lines: seq<Line>) returns (d: Config)
    requires Ready(b) && AreLines(e.decode, lines) && e.source == []
    ensures Run(e, b, LinesTokens(lines)) == Some(d)
    ensures Ready(d) && Same(Added(b, Kids(InDropped(b.blocks), NodesOf(e.decode, lines))), d)
    decreases lines, 2
  {
    hide Step, Run, Ready, NodeOf, InDropped, IsLine, LineTokens;
    if lines == [] {
      RunNothing(e, b);
      AddedNothing(b);
      d := b;
    } else {
      var c := LineIsRead(e, b, lines[0]);
      d := LinesAreRead(e, c, lines[1..]);
      Chain(e, b, LineTokens(lines[0]), LinesTokens(lines[1..]), c);
      var x, y := Kids(InDropped(b.blocks), Kids(lines[0].slash.Some?, [NodeOf(e.decode, lines[0])])), Kids(InDropped(b.blocks), NodesOf(e.decode, lines[1..]));
      AddedMore(b, c, x, y);
      SameDropped(Added(b, x), c);
      hide Added;
      KidsAppend(InDropped(b.blocks), Kids(lines[0].slash.Some?, [NodeOf(e.decode, lines[0])]), NodesOf(e.decode, lines[1..]));
    }
  }

  lemma SameDropped(c: Config, d: Config)
    requires Same(c, d)
    ensures InDropped(c.blocks) == InDropped(d.blocks)
  {}

  lemma BlocksAreRead(e: Env, b: Config, o: OpenNode, st: NodeState, p: Pending, seen: bool, blocks: seq<Braces>)
    returns (o2: OpenNode, st2: NodeState, p2: Pending, seen2: bool)
    requires Ready(b) && IsPlace(e, st, p, seen) && AreBlocks(e.decode, blocks) && e.source == []
    ensures Run(e, Place(b, o, st, p, seen), BlocksTokens(blocks)) == Some(Place(b, o2, st2, p2, seen2))
    ensures IsPlace(e, st2, p2, seen2) && o2 == o.(node := o2.node)
    ensures blocks == [] ==> o2 == o && st2 == st && p2 == p && seen2 == seen
    ensures SettledIn(e, o2, p2) == WithKids(SettledIn(e, o, p), Kids(InDropped(b.blocks), NodesIn(e.decode, blocks)))
    decreases blocks, 1
  {
    hide Step, Run, Place, InDropped, IsBraces, BracesTokens, NodesWithin, IsPending;
    if blocks == [] {
      RunNothing(e, Place(b, o, st, p, seen));
      o2, st2, p2, seen2 := o, st, p, seen;
      assert o.node.children + [] == o.node.children;
    } else {
      var x := blocks[0];
      var o1, st1 := BracesAreRead(e, b, o, st, p, seen, x);
      NothingIsPending(e, o1.node);
      o2, st2, p2, seen2 := BlocksAreRead(e, b, o1, st1, Nothing, true, blocks[1..]);
      Chain(e, Place(b, o, st, p, seen), BracesTokens(x), BlocksTokens(blocks[1..]), Place(b, o1, st1, Nothing, true));
      KidsTwice(SettledIn(e, o, p), InDropped(b.blocks), x.slash.Some?, NodesWithin(e.decode, x), NodesIn(e.decode, blocks[1..]));
    }
  }

  /** Up to the brace that opens the block. */
  lemma OpeningIsRead(e: Env, b: Config, o: OpenNode, st: NodeState, p: Pending, seen: bool, x: Braces) returns (st2: NodeState)
    requires Ready(b) && IsPlace(e, st, p, seen) && IsBraces(e.decode, x)
    ensures var c := Opened(b, SettledIn(e, o, p), st2, x.slash.Some?, x.open);
      Ready(c) && Takes(st2) && Run(e, Place(b, o, st, p, seen), GapIfAny(x.gap) + (SlashTokens(x.slash) + [x.open])) == Some(c)
  {
    hide Step, Run, Settled, IsPending, AreLines, NodesWithin, Opened, Place;
    st2 := if x.gap.Some? then Behind(st) else st;
    var c, d := Place(b, o, st, p, seen), Place(b, o, st2, p, seen);
    if x.gap.Some? { GapIsRead(e, b, o, st, p, seen, x.gap.value); } else { RunNothing(e, c); }
    Chain(e, c, GapIfAny(x.gap), SlashTokens(x.slash) + [x.open], d);
    if x.slash.Some? {
      var s, n := x.slash.value, SettledIn(e, o, p);
      var f := Params(b, n, NO_TOKEN, true, seen);
      SlashIsRead(e, b, o, st2, p, seen, s.token);
      assert SlashTokens(x.slash) + [x.open] == [s.token] + (TriviaTokens(s.space) + [x.open]);
      ChainOne(e, d, s.token, TriviaTokens(s.space) + [x.open], f);
      TriviaAreSkipped(e, f, s.space);
      Chain(e, f, TriviaTokens(s.space), [x.open], f);
      DroppedOpenIsRead(e, b, n, seen, x.open);
      RunOne(e, f, x.open);
      st2 := AtParams;
    } else {
      assert SlashTokens(x.slash) + [x.open] == [x.open];
      OpenIsRead(e, b, o, st2, p, seen, x.open);
      RunOne(e, d, x.open);
    }
  }

  /** From behind the brace that opens the block to behind the one that shuts it. */
  lemma InsideIsRead(e: Env, c: Config, x: Braces) returns (d: Config)
    requires Ready(c) && c.blocks != [] && IsBraces(e.decode, x) && e.source == []
    ensures d.blocks != [] && Same(Added(c, Kids(InDropped(c.blocks), NodesWithin(e.decode, x))), d.(phase := Between))
    ensures Run(e, c, LinesTokens(x.nodes) + ((if x.last.Some? then LineTokens(x.last.value) else []) + (x.lead + [x.shut]))) == Some(CloseBlock(d))
    decreases x, 0
  {
    hide Step, Run, CloseBlock, IsLine, NodeOf, InDropped, LineTokens, Settled, IsPending, Loose, Finished;
    var a := LinesAreRead(e, c, x.nodes);
    var tail := (if x.last.Some? then LineTokens(x.last.value) else []) + (x.lead + [x.shut]);
    Chain(e, c, LinesTokens(x.nodes), tail, a);
    var dropped := InDropped(c.blocks);
    AddedKeepsDepth(c, Kids(dropped, NodesOf(e.decode, x.nodes)));
    if x.last.Some? {
      var l := x.last.value;
      UnendedTokens(e, l);
      var o, st, p, seen := BodyIsRead(e, a, l);
      var body := HeadTokens(l) + (ItemsTokens(l.items) + BlocksTokens(l.blocks));
      assert tail == body + [x.shut];
      Chain(e, a, body, [x.shut], Fresh(a, o, p));
      d := ShutEndsNode(e, a, o, p, x.shut);
      RunOne(e, Fresh(a, o, p), x.shut);
      FinishedIs(a, SettledIn(e, o, p));
      LastIsAdded(e, c, a, dropped, x, o, p, d);
    } else {
      assert tail == x.lead + [x.shut];
      LooseIsSkipped(e, a, x.lead);
      Chain(e, a, x.lead, [x.shut], a);
      ShutIsRead(e, a, x.shut);
      RunOne(e, a, x.shut);
      d := a;
      assert NodesOf(e.decode, x.nodes) + [] == NodesOf(e.decode, x.nodes);
    }
  }

  lemma UnendedTokens(e: Env, l: Line)
    requires IsLine(e.decode, l) && l.ending.Unended?
    ensures l.blocks == [] && LineTokens(l) == HeadTokens(l) + (ItemsTokens(l.items) + BlocksTokens(l.blocks))
  {
    assert BlocksTokens(l.blocks) + EndingTokens(l.ending) == BlocksTokens(l.blocks);
  }

  lemma AddedKeepsDepth(c: Config, nodes: seq<Node>)
    ensures |Added(c, nodes).blocks| == |c.blocks|
  {}

  /** The last node of a block, which the brace ends. */
  lemma LastIsAdded(e: Env, c: Config, a: Config, dropped: bool, x: Braces, o: OpenNode, p: Pending, d: Config)
    requires IsBraces(e.decode, x) && x.last.Some? && IsPending(e, p) && dropped == InDropped(c.blocks)
    requires Same(Added(c, Kids(dropped, NodesOf(e.decode, x.nodes))), a)
    requires o.ignored == (x.last.value.slash.Some? || InDropped(a.blocks)) && (!InDropped(a.blocks) ==> Settled(e, o.node, p) == NodeOf(e.decode, x.last.value))
    requires Same(Added(a, Kids(o.ignored, [Settled(e, o.node, p)])), d.(phase := Between))
    ensures Same(Added(c, Kids(dropped, NodesWithin(e.decode, x))), d.(phase := Between))
  {
    hide Added, Settled, NodeOf, NodesOf;
    var first := NodesOf(e.decode, x.nodes);
    var last := if x.last.value.slash.None? then [NodeOf(e.decode, x.last.value)] else [];
    SameDropped(Added(c, Kids(dropped, first)), a);
    AddedMore(c, a, Kids(dropped, first), Kids(dropped, last));
    KidsAppend(dropped, first, last);
  }

  lemma BracesAreRead(e: Env, b: Config, o: OpenNode, st: NodeState, p: Pending, seen: bool, x: Braces) returns (o2: OpenNode, st2: NodeState)
    requires Ready(b) && IsPlace(e, st, p, seen) && IsBraces(e.decode, x) && e.source == []
    ensures Run(e, Place(b, o, st, p, seen), BracesTokens(x)) == Some(Place(b, o2, st2, Nothing, true)) && Takes(st2)
    ensures o2 == WithKids(SettledIn(e, o, p), Kids(x.slash.Some? || InDropped(b.blocks), NodesWithin(e.decode, x)))
    decreases x, 1
  {
    hide Step, Run, Place, IsBraces, NodesWithin, CloseBlock, Settled, IsPending, LinesTokens, LineTokens, GapIfAny, SlashTokens, Ready;
    st2 := OpeningIsRead(e, b, o, st, p, seen, x);
    var n := SettledIn(e, o, p);
    var c := Opened(b, n, st2, x.slash.Some?, x.open);
    var d := InsideIsRead(e, c, x);
    ShutIs(b, n, st2, x.slash.Some?, x.open, NodesWithin(e.decode, x), d);
    var opening := GapIfAny(x.gap) + (SlashTokens(x.slash) + [x.open]);
    var inside := LinesTokens(x.nodes) + ((if x.last.Some? then LineTokens(x.last.value) else []) + (x.lead + [x.shut]));
    assert BracesTokens(x) == opening + inside;
    Chain(e, Place(b, o, st, p, seen), opening, inside, c);
    o2 := WithKids(n, Kids(x.slash.Some? || InDropped(b.blocks), NodesWithin(e.decode, x)));
  }

  lemma KidsTwice(o: OpenNode, dropped: bool, slash: bool, x: seq<Node>, y: seq<Node>)
    ensures WithKids(WithKids(o, Kids(slash || dropped, x)), Kids(dropped, y)) == WithKids(o, Kids(dropped, (if slash then [] else x) + y))
  {
    assert o.node.children + Kids(slash || dropped, x) + Kids(dropped, y) == o.node.children + (Kids(slash || dropped, x) + Kids(dropped, y));
    assert [] + y == y;
  }

  // ----- whole documents, from any source -----

  predicate Plain(tokens: seq<Token>) { forall k :: 0 <= k < |tokens| ==> !tokens[k].id.EOF? }

  lemma {:induction false} TriviaArePlain(space: seq<Trivium>)
    requires forall k :: 0 <= k < |space| ==> IsTrivium(space[k]) || (space[k].Blank? && space[k].t.id.Newline?)
    ensures Plain(TriviaTokens(space))
  {
    if space != [] {
      assert forall k :: 0 <= k < |space[1..]| ==> space[1..][k] == space[k + 1];
      TriviaArePlain(space[1..]);
    }
  }

  lemma GapIsPlain(gap: Option<Gap>)
    requires gap.Some? ==> IsGap(gap.value)
    ensures Plain(GapIfAny(gap))
  {
    if gap.Some? { TriviaArePlain(gap.value.more); }
  }

  lemma LiteralIsPlain(l: Literal)
    requires IsLiteral(l)
    ensures Plain(LiteralTokens(l))
  {
    TriviaArePlain(l.space);
    hide TriviaTokens;
  }

  lemma EntryIsPlain(x: Entry)
    requires IsEntry(x)
    ensures Plain(EntryTokens(x))
  {
    LiteralIsPlain(x.literal);
    if x.Property? {
      GapIsPlain(x.mid);
      TriviaArePlain(x.space);
    }
    hide TriviaTokens, LiteralTokens, GapIfAny;
  }

  lemma SlashIsPlain(s: Option<Slash>)
    requires IsSlash(s)
    ensures Plain(SlashTokens(s))
  {
    if s.Some? { TriviaArePlain(s.value.space); }
    hide TriviaTokens;
  }

  lemma {:induction false} ItemsArePlain(e: Env, items: seq<Item>)
    requires AreItems(e.decode, items)
    ensures Plain(ItemsTokens(items))
  {
    hide EntryTokens, SlashTokens, GapTokens, IsEntry, IsGap, IsSlash;
    if items != [] {
      assert IsItem(e.decode, items[0]) && forall k :: 0 <= k < |items[1..]| ==> items[1..][k] == items[k + 1];
      GapIsPlain(Some(items[0].gap));
      SlashIsPlain(items[0].slash);
      EntryIsPlain(items[0].entry);
      ItemsArePlain(e, items[1..]);
    }
  }

  lemma EndingIsPlain(x: Ending)
    requires IsEnding(x)
    ensures Plain(EndingTokens(x))
  {
    hide GapTokens, IsGap;
    match x
    case Ended(gap, _) => GapIsPlain(gap);
    case Commented(front, _, _, _) => GapIsPlain(Some(front));
    case Unended =>
  }

  lemma HeadIsPlain(e: Env, l: Line)
    requires IsHead(e.decode, l)
    ensures Plain(HeadTokens(l))
  {
    assert Plain(l.lead) && Plain(l.more) && Plain(l.space);
    assert Plain(AnnotationTokens(l.annotation));
    hide AnnotationTokens;
  }

  lemma LineIsPlain(e: Env, l: Line)
    requires IsLine(e.decode, l)
    ensures Plain(LineTokens(l))
    decreases l, 1
  {
    hide IsHead, AreItems, IsEnding, HeadTokens, ItemsTokens, EndingTokens, BlocksTokens;
    HeadIsPlain(e, l);
    ItemsArePlain(e, l.items);
    BlocksArePlain(e, l.blocks);
    EndingIsPlain(l.ending);
  }

  lemma BlocksArePlain(e: Env, blocks: seq<Braces>)
    requires AreBlocks(e.decode, blocks)
    ensures Plain(BlocksTokens(blocks))
    decreases blocks, 0
  {
    hide LinesTokens, LineTokens, GapTokens, SlashTokens, IsGap, IsSlash, IsLine;
    if blocks != [] {
      var x := blocks[0];
      GapIsPlain(x.gap);
      SlashIsPlain(x.slash);
      LinesArePlain(e, x.nodes);
      if x.last.Some? { LineIsPlain(e, x.last.value); }
      BlocksArePlain(e, blocks[1..]);
      assert Plain(BracesTokens(x));
      hide BracesTokens;
    }
  }

  lemma LinesArePlain(e: Env, lines: seq<Line>)
    requires AreLines(e.decode, lines)
    ensures Plain(LinesTokens(lines))
    decreases lines, 2
  {
    hide LineTokens, IsLine;
    if lines != [] {
      LineIsPlain(e, lines[0]);
      LinesArePlain(e, lines[1..]);
    }
  }

  /** Without a source, a document is read as what it means, whatever line break ends it. */
  lemma TextWithoutSource(e: Env, d: Text, t: Token) returns (c: Config)
    requires IsText(e.decode, d) && e.source == [] && t.id.Newline?
    ensures Run(e, INITIAL, TextTokens(e.decode, d, t)) == Some(c) && Ready(c) && c.blocks == [] && c.doc == NodesOfText(e.decode, d)
  {
    hide Run, NodeOf, NodesOf, LinesTokens, LineTokens, IsLine, AreLines;
    var a := LinesAreRead(e, INITIAL, d.lines);
    var n := NodesOf(e.decode, d.lines);
    if d.last.Some? {
      var l := EndedBy(d.last.value, t);
      SameLine(e.decode, d.last.value, t);
      c := LineIsRead(e, a, l);
      Chain(e, INITIAL, LinesTokens(d.lines), LineTokens(l), a);
      assert l.slash.Some? ==> n + [] == n;
    } else {
      Chain(e, INITIAL, LinesTokens(d.lines), d.lead + [t], a);
      LooseIsSkipped(e, a, d.lead + [t]);
      c := a;
      assert n + [] == n;
    }
  }

  lemma SameLine(decode: Decoder, l: Line, t: Token)
    requires IsLine(decode, l) && !l.ending.Unended? && l.ending.t.id.Newline? && t.id.Newline?
    ensures IsLine(decode, EndedBy(l, t)) && NodeOf(decode, EndedBy(l, t)) == NodeOf(decode, l)
  {}

  /** What ends a line, but the terminator. */
  function BeforeEnd(x: Ending): seq<Token>
    requires !x.Unended?
  {
    if x.Ended? then GapIfAny(x.gap) else GapTokens(x.front) + ([x.comment] + x.blanks)
  }

  lemma EndingStops(x: Ending, t: Token)
    requires !x.Unended?
    ensures EndingTokens(x.(t := t)) == BeforeEnd(x) + [t]
  {
    hide GapTokens, GapIfAny;
    if x.Commented? {
      var a, b := GapTokens(x.front), [x.comment] + x.blanks;
      assert a + ([x.comment] + (x.blanks + [t])) == a + b + [t];
    }
  }

  lemma LineStops(l: Line, t: Token)
    requires !l.ending.Unended?
    ensures LineTokens(EndedBy(l, t)) == HeadTokens(l) + (ItemsTokens(l.items) + BlocksTokens(l.blocks)) + BeforeEnd(l.ending) + [t]
  {
    LineIsBodyAndEnd(EndedBy(l, t));
    EndingStops(l.ending, t);
    hide HeadTokens, ItemsTokens, BlocksTokens, EndingTokens, LineTokens, BeforeEnd;
    var body := HeadTokens(l) + (ItemsTokens(l.items) + BlocksTokens(l.blocks));
    assert body + (BeforeEnd(l.ending) + [t]) == body + BeforeEnd(l.ending) + [t];
  }

  /** The tokens in front of the last one. */
  function FrontTokens(decode: Decoder, d: Text): seq<Token>
    requires IsText(decode, d)
  {
    LinesTokens(d.lines) +
    if d.last.Some? then HeadTokens(d.last.value) + (ItemsTokens(d.last.value.items) + BlocksTokens(d.last.value.blocks)) + BeforeEnd(d.last.value.ending)
    else d.lead
  }

  lemma TextStops(decode: Decoder, d: Text, t: Token)
    requires IsText(decode, d)
    ensures TextTokens(decode, d, t) == FrontTokens(decode, d) + [t]
  {
    if d.last.Some? { LineStops(d.last.value, t); }
    hide HeadTokens, ItemsTokens, BlocksTokens, LineTokens, BeforeEnd, LinesTokens, AreLines, IsLine;
  }

  lemma FrontIsPlain(decode: Decoder, d: Text)
    requires IsText(decode, d)
    ensures Plain(FrontTokens(decode, d))
  {
    var e := Env(decode, []);
    LinesArePlain(e, d.lines);
    if d.last.Some? {
      LineIsPlain(e, d.last.value);
      LineStops(d.last.value, d.last.value.ending.t);
      assert EndedBy(d.last.value, d.last.value.ending.t) == d.last.value;
      var front := HeadTokens(d.last.value) + (ItemsTokens(d.last.value.items) + BlocksTokens(d.last.value.blocks)) + BeforeEnd(d.last.value.ending);
      hide HeadTokens, ItemsTokens, BlocksTokens, LineTokens, BeforeEnd, LinesTokens, AreLines, IsLine;
      PlainFront(front, d.last.value.ending.t);
    }
    hide LinesTokens, AreLines, IsLine;
  }

  lemma PlainFront(tokens: seq<Token>, t: Token)
    requires Plain(tokens + [t])
    ensures Plain(tokens)
  {
    assert forall k :: 0 <= k < |tokens| ==> tokens[k] == (tokens + [t])[k];
  }

  /** Where a line break ends a document, the end of the input ends it in the same way. */
  lemma EofAsNewline(e: Env, m: Config, t: Token, d: Config)
    requires Step(e, m, t) == Some(d) && Ready(d) && d.blocks == []
    requires t.id.Newline? && t.offset + |t.data| == |e.source|
    ensures Step(e, m, EOF_TOKEN) == Some(d)
  {
    hide EndNode, Commit;
    assert TokenEnd(e, t) == TokenEnd(e, EOF_TOKEN);
  }

  /**
   * Main result: every document of the grammar is accepted, whatever text its tokens come from, with nothing left open, and
   * shows exactly the nodes that it means.
   */
  lemma DocumentIsRead(e: Env, d: Text)
    requires IsText(e.decode, d)
    ensures var c := ParseAll(e, FrontTokens(e.decode, d));
      c.Some? && c.value.phase.Between? && c.value.blocks == [] && Sourceless.BareAll(c.value.doc) == NodesOfText(e.decode, d)
  {
    var t := Token(Newline, [], |e.source|);
    var front := FrontTokens(e.decode, d);
    var bare := TextWithoutSource(Sourceless.NoSource(e), d, t);
    TextStops(e.decode, d, t);
    FrontIsPlain(e.decode, d);
    hide Run, Step, IsText, NodesOfText, TextTokens, FrontTokens;
    assert Plain(front + [t]);
    assert Sourceless.BareConfig(INITIAL) == INITIAL;
    Sourceless.RunIsBare(e, INITIAL, front + [t]);
    var c := Run(e, INITIAL, front + [t]).value;
    RunAppend(e, INITIAL, front, [t]);
    RunAppend(e, INITIAL, front, [EOF_TOKEN]);
    var m := Run(e, INITIAL, front).value;
    RunOne(e, m, t);
    RunOne(e, m, EOF_TOKEN);
    EofAsNewline(e, m, t, c);
  }
}
