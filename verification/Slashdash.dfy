// What a slashdash in front of an entry drops: not always the next entry, and sometimes an entry of another node.
module Slashdash {
  import opened Basics
  import opened Tokens
  import opened Documents
  import opened Machine
  import opened Laws

  // ----- within a node -----

  /** Inside a node without a child block, nothing slashdashed so far, at a place where a slashdash may stand. */
  predicate BeforeSlashdash(e: Env, c: Config) {
    && c.phase.Inside? && !c.phase.seen && c.annotation.NoAnnotation? && !c.cont && !c.skipEntry
    && ((c.phase.st == AtParams && c.ident == NO_TOKEN && c.typ == NO_TOKEN)
        || ((c.phase.st == AtArgProp || c.phase.st == AtPostWS) && c.ident.Valid() && e.decode(c.ident).Some?))
  }

  /** The arguments of the node, with the pending one if there is one. */
  function Args(e: Env, c: Config): seq<Value>
    requires BeforeSlashdash(e, c)
  {
    c.phase.open.node.args + if c.ident.Valid() then [ValueOf(e.decode, c.ident, c.typ).value] else []
  }

  /** Behind the slashdash: nothing pending but the slashdash itself. */
  function Waiting(e: Env, c: Config, st: NodeState): Config
    requires BeforeSlashdash(e, c)
  {
    c.(phase := c.phase.(open := c.phase.open.(node := c.phase.open.node.(args := Args(e, c))), st := st),
       skipEntry := true, typ := NO_TOKEN, ident := NO_TOKEN)
  }

  lemma SlashdashReads(e: Env, c: Config, slash: Token)
    requires BeforeSlashdash(e, c) && slash.id.TokenComment?
    ensures Step(e, c, slash) == Some(Waiting(e, c, if c.phase.st == AtArgProp then AtArgProp else AtParams))
  {
    var n := c.phase.open.node;
    assert n.args + [] == n.args;
  }

  lemma BlankWaits(e: Env, c: Config, st: NodeState, t: Token)
    requires BeforeSlashdash(e, c) && st in {AtArgProp, AtParams, AtPostWS} && t.id.Whitespace?
    ensures Step(e, Waiting(e, c, st), t) == Some(Waiting(e, c, if st == AtArgProp then AtPostWS else st))
  {}

  lemma {:induction false} BlanksWait(e: Env, c: Config, st: NodeState, blanks: seq<Token>)
    requires BeforeSlashdash(e, c) && st in {AtArgProp, AtParams, AtPostWS}
    requires forall k :: 0 <= k < |blanks| ==> blanks[k].id.Whitespace?
    ensures Run(e, Waiting(e, c, st), blanks) == Some(Waiting(e, c, if st == AtArgProp && blanks != [] then AtPostWS else st))
    decreases |blanks|
  {
    hide Step, Waiting;
    if blanks != [] {
      var next := if st == AtArgProp then AtPostWS else st;
      BlankWaits(e, c, st, blanks[0]);
      RunHead(e, Waiting(e, c, st), blanks, Waiting(e, c, next));
      BlanksWait(e, c, next, blanks[1..]);
    }
  }

  /** The value behind the slashdash; behind whitespace that stands behind an entry, the slashdash is spent before it. */
  function WithValue(e: Env, c: Config, st: NodeState, v: Token): Config
    requires BeforeSlashdash(e, c)
  {
    var w := Waiting(e, c, AtArgProp);
    w.(ident := v, skipEntry := st != AtPostWS)
  }

  lemma ValueReads(e: Env, c: Config, st: NodeState, v: Token)
    requires BeforeSlashdash(e, c) && st in {AtArgProp, AtParams, AtPostWS} && IsValue(v.id) && !v.id.SuffixedDecimal?
    ensures Step(e, Waiting(e, c, st), v) == Some(WithValue(e, c, st, v))
  {}

  lemma LineEnds(e: Env, c: Config, st: NodeState, v: Token, last: Token)
    requires BeforeSlashdash(e, c) && IsValue(v.id) && e.decode(v).Some? && last.id.Newline?
    ensures var d := Step(e, WithValue(e, c, st, v), last); d.Some? && EndsNode(e, c, last, d.value, Args(e, c) + KeptIf(e, st == AtPostWS, v), c.phase.open.node.props)
  {
    assert Args(e, c) + [] == Args(e, c);
  }

  function KeptIf(e: Env, kept: bool, v: Token): seq<Value>
    requires e.decode(v).Some?
  {
    if kept then [ValueOf(e.decode, v, NO_TOKEN).value] else []
  }

  /** d is c after its node has ended with these arguments and properties; no slashdash is left. */
  predicate EndsNode(e: Env, c: Config, last: Token, d: Config, args: seq<Value>, props: seq<Prop>)
    requires c.phase.Inside?
  {
    var o := c.phase.open;
    var ended := c.(phase := c.phase.(open := o.(node := o.node.(args := args, props := props))), typ := NO_TOKEN, ident := NO_TOKEN);
    !d.skipEntry && d.(phase := Between) == EndNode(e, ended, last.offset + |last.data|)
  }

  /**
   * Main result: a slashdash in front of a value drops it, and nothing else, exactly unless the slashdash stands directly
   * behind another entry and whitespace stands behind the slashdash.
   */
  lemma SlashdashDropsExactly(e: Env, c: Config, slash: Token, blanks: seq<Token>, v: Token, last: Token)
    requires BeforeSlashdash(e, c) && slash.id.TokenComment? && (forall k :: 0 <= k < |blanks| ==> blanks[k].id.Whitespace?)
    requires IsValue(v.id) && !v.id.SuffixedDecimal? && e.decode(v).Some? && last.id.Newline?
    ensures var kept := c.phase.st == AtArgProp && blanks != [];
      var d := Run(e, c, [slash] + blanks + [v, last]);
      d.Some? && EndsNode(e, c, last, d.value, Args(e, c) + KeptIf(e, kept, v), c.phase.open.node.props)
  {
    hide Step, Waiting, WithValue, EndsNode, EndNode;
    var st := if c.phase.st == AtArgProp then AtArgProp else AtParams;
    var st2 := if st == AtArgProp && blanks != [] then AtPostWS else st;
    var all := [slash] + blanks + [v, last];
    assert all[1..] == blanks + [v, last];
    SlashdashReads(e, c, slash);
    RunHead(e, c, all, Waiting(e, c, st));
    BlanksWait(e, c, st, blanks);
    RunAppend(e, Waiting(e, c, st), blanks, [v, last]);
    ValueReads(e, c, st2, v);
    RunHead(e, Waiting(e, c, st2), [v, last], WithValue(e, c, st2, v));
    assert [v, last][1..] == [last];
    LineEnds(e, c, st2, v, last);
    RunOne(e, WithValue(e, c, st2, v), last);
  }

  // ----- a property -----

  /** Whitespace and comments. */
  predicate Fill(tokens: seq<Token>) {
    forall k :: 0 <= k < |tokens| ==> tokens[k].id.Whitespace? || IsComment(tokens[k].id)
  }

  /** Nothing, or a type name in parentheses. */
  predicate IsAnnotation(tokens: seq<Token>) {
    tokens == [] || (|tokens| == 3 && tokens[0].id.ParensOpen? && IsIdentifier(tokens[1].id) && tokens[2].id.ParensClose?)
  }

  function TypeIn(annotation: seq<Token>): Token {
    if |annotation| == 3 then annotation[1] else NO_TOKEN
  }

  /** Behind a key, behind the whitespace that follows it, and behind its equals sign. */
  function WithKey(e: Env, c: Config, st: NodeState, key: Token, at: NodeState): Config
    requires BeforeSlashdash(e, c)
  {
    Goto(WithValue(e, c, st, key), at)
  }

  lemma BlankAfterKey(e: Env, c: Config, st: NodeState, key: Token, at: NodeState, t: Token)
    requires BeforeSlashdash(e, c) && at in {AtArgProp, AtPostWS} && t.id.Whitespace?
    ensures Step(e, WithKey(e, c, st, key, at), t) == Some(WithKey(e, c, st, key, AtPostWS))
  {}

  lemma {:induction false} BlanksAfterKey(e: Env, c: Config, st: NodeState, key: Token, at: NodeState, blanks: seq<Token>)
    requires BeforeSlashdash(e, c) && at in {AtArgProp, AtPostWS} && forall k :: 0 <= k < |blanks| ==> blanks[k].id.Whitespace?
    ensures Run(e, WithKey(e, c, st, key, at), blanks) == Some(WithKey(e, c, st, key, if blanks == [] then at else AtPostWS))
    decreases |blanks|
  {
    hide Step, WithKey;
    if blanks != [] {
      BlankAfterKey(e, c, st, key, at, blanks[0]);
      BlanksAfterKey(e, c, st, key, AtPostWS, blanks[1..]);
    }
  }

  lemma EqualsAfterKey(e: Env, c: Config, st: NodeState, key: Token, at: NodeState, t: Token)
    requires BeforeSlashdash(e, c) && at in {AtArgProp, AtPostWS} && IsIdentifier(key.id) && t.id.Equals?
    ensures Step(e, WithKey(e, c, st, key, at), t) == Some(WithKey(e, c, st, key, AtPropValue))
  {}

  /** In front of the value of a property, nothing of which has been read but possibly its annotation. */
  predicate BeforePropertyValue(c: Config) {
    c.phase.Inside? && c.phase.st == AtPropValue && c.annotation.NoAnnotation? && !c.cont
  }

  lemma {:induction false} FillIsSkipped(e: Env, c: Config, fill: seq<Token>)
    requires BeforePropertyValue(c) && Fill(fill)
    ensures Run(e, c, fill) == Some(c)
    decreases |fill|
  {
    if fill != [] {
      assert Step(e, c, fill[0]) == Some(c);
      FillIsSkipped(e, c, fill[1..]);
    }
  }

  lemma AnnotationIsRead(e: Env, c: Config, annotation: seq<Token>)
    requires BeforePropertyValue(c) && IsAnnotation(annotation)
    ensures Run(e, c, annotation) == Some(if annotation == [] then c else c.(typ := TypeIn(annotation)))
  {
    if annotation != [] {
      var c1, c2, c3 := c.(annotation := Wanted), c.(annotation := Got, typ := annotation[1]), c.(typ := annotation[1]);
      assert Step(e, c, annotation[0]) == Some(c1) && Step(e, c1, annotation[1]) == Some(c2) && Step(e, c2, annotation[2]) == Some(c3);
      assert annotation[1..][1..] == [annotation[2]];
      hide Step;
      RunHead(e, c, annotation, c1);
      RunHead(e, c1, annotation[1..], c2);
      RunOne(e, c2, annotation[2]);
    }
  }

  /** The properties a node has once the value v of key is read, if the slashdash has been spent before, and if not. */
  function PropsIf(e: Env, c: Config, kept: bool, key: Token, v: Token, typ: Token): seq<Prop>
    requires BeforeSlashdash(e, c) && e.decode(key).Some? && e.decode(v).Some?
  {
    var props := c.phase.open.node.props;
    if kept then Put(props, KeyText(e.decode(key).value), ValueOf(e.decode, v, typ).value) else props
  }

  lemma PropertyEnds(e: Env, c: Config, st: NodeState, key: Token, typ: Token, v: Token, last: Token)
    requires BeforeSlashdash(e, c) && st in {AtArgProp, AtParams, AtPostWS} && e.decode(key).Some? && e.decode(v).Some?
    requires IsValue(v.id) && last.id.Newline?
    ensures var d := Run(e, WithKey(e, c, st, key, AtPropValue).(typ := typ), [v, last]);
      d.Some? && EndsNode(e, c, last, d.value, Args(e, c), PropsIf(e, c, st == AtPostWS, key, v, typ))
  {
    var a := WithKey(e, c, st, key, AtPropValue).(typ := typ);
    var node := a.phase.open.node.(props := PropsIf(e, c, st == AtPostWS, key, v, typ));
    var b := a.(phase := Inside(a.phase.open.(node := node), AtNode, false), typ := NO_TOKEN, ident := NO_TOKEN, skipEntry := false);
    assert Step(e, a, v) == Some(b);
    assert Step(e, b, last) == Some(EndNode(e, b, last.offset + |last.data|));
    assert [v, last][1..] == [last];
    hide Step;
    RunHead(e, a, [v, last], b);
    RunOne(e, b, last);
  }

  /** The tokens of a property, with whitespace and comments where they may stand. */
  function PropertyTokens(key: Token, mid: seq<Token>, equals: Token, fill: seq<Token>, annotation: seq<Token>, more: seq<Token>): seq<Token> {
    [key] + (mid + ([equals] + (fill + (annotation + more))))
  }

  /**
   * Main result: a slashdash in front of a property, annotated or not, drops it and nothing else, exactly unless the
   * slashdash stands directly behind another entry and whitespace stands behind the slashdash.
   */
  lemma SlashdashDropsProperty(e: Env, c: Config, slash: Token, blanks: seq<Token>, key: Token, mid: seq<Token>, equals: Token,
      fill: seq<Token>, annotation: seq<Token>, more: seq<Token>, v: Token, last: Token)
    requires BeforeSlashdash(e, c) && slash.id.TokenComment? && (forall k :: 0 <= k < |blanks| ==> blanks[k].id.Whitespace?)
    requires IsIdentifier(key.id) && e.decode(key).Some? && (forall k :: 0 <= k < |mid| ==> mid[k].id.Whitespace?) && equals.id.Equals?
    requires Fill(fill) && IsAnnotation(annotation) && Fill(more) && IsValue(v.id) && e.decode(v).Some? && last.id.Newline?
    ensures var kept := c.phase.st == AtArgProp && blanks != [];
      var d := Run(e, c, [slash] + (blanks + (PropertyTokens(key, mid, equals, fill, annotation, more) + [v, last])));
      d.Some? && EndsNode(e, c, last, d.value, Args(e, c), PropsIf(e, c, kept, key, v, TypeIn(annotation)))
  {
    hide Step, Run, Waiting, WithValue, WithKey, EndsNode, EndNode, BeforePropertyValue;
    var st := if c.phase.st == AtArgProp then AtArgProp else AtParams;
    var st2 := if st == AtArgProp && blanks != [] then AtPostWS else st;
    var rest := PropertyTokens(key, mid, equals, fill, annotation, more) + [v, last];
    SlashdashReads(e, c, slash);
    RunOne(e, c, slash);
    BlanksWait(e, c, st, blanks);
    RunAppend(e, c, [slash], blanks + rest);
    RunAppend(e, Waiting(e, c, st), blanks, rest);
    PropertyRuns(e, c, st2, key, mid, equals, fill, annotation, more, [v, last]);
    PropertyEnds(e, c, st2, key, TypeIn(annotation), v, last);
  }

  lemma PropertyRuns(e: Env, c: Config, st: NodeState, key: Token, mid: seq<Token>, equals: Token,
      fill: seq<Token>, annotation: seq<Token>, more: seq<Token>, rest: seq<Token>)
    requires BeforeSlashdash(e, c) && st in {AtArgProp, AtParams, AtPostWS} && IsIdentifier(key.id)
    requires (forall k :: 0 <= k < |mid| ==> mid[k].id.Whitespace?) && equals.id.Equals? && Fill(fill) && IsAnnotation(annotation) && Fill(more)
    ensures Run(e, Waiting(e, c, st), PropertyTokens(key, mid, equals, fill, annotation, more) + rest)
      == Run(e, WithKey(e, c, st, key, AtPropValue).(typ := TypeIn(annotation)), rest)
  {
    var at := if mid == [] then AtArgProp else AtPostWS;
    var b := WithKey(e, c, st, key, AtPropValue);
    var b2 := b.(typ := TypeIn(annotation));
    ValueReads(e, c, st, key);
    KeyIsThere(e, c, st, key);
    hide Step, Run, Waiting, WithValue, WithKey;
    BlanksAfterKey(e, c, st, key, AtArgProp, mid);
    EqualsAfterKey(e, c, st, key, at, equals);
    FillIsSkipped(e, b, fill);
    AnnotationIsRead(e, b, annotation);
    FillIsSkipped(e, b2, more);
    Parts(key, mid, equals, fill, annotation, more, rest);
    RunOne(e, Waiting(e, c, st), key);
    RunOne(e, WithKey(e, c, st, key, at), equals);
    RunAppend(e, Waiting(e, c, st), [key], mid + ([equals] + (fill + (annotation + (more + rest)))));
    RunAppend(e, WithKey(e, c, st, key, AtArgProp), mid, [equals] + (fill + (annotation + (more + rest))));
    RunAppend(e, WithKey(e, c, st, key, at), [equals], fill + (annotation + (more + rest)));
    RunAppend(e, b, fill, annotation + (more + rest));
    RunAppend(e, b, annotation, more + rest);
    RunAppend(e, b2, more, rest);
  }

  lemma Parts(key: Token, mid: seq<Token>, equals: Token, fill: seq<Token>, annotation: seq<Token>, more: seq<Token>, rest: seq<Token>)
    ensures PropertyTokens(key, mid, equals, fill, annotation, more) + rest == [key] + (mid + ([equals] + (fill + (annotation + (more + rest)))))
  {}

  lemma KeyIsThere(e: Env, c: Config, st: NodeState, key: Token)
    requires BeforeSlashdash(e, c)
    ensures WithKey(e, c, st, key, AtArgProp) == WithValue(e, c, st, key)
    ensures var b := WithKey(e, c, st, key, AtPropValue); BeforePropertyValue(b) && b.typ == NO_TOKEN && b == b.(typ := NO_TOKEN)
    ensures forall typ :: BeforePropertyValue(WithKey(e, c, st, key, AtPropValue).(typ := typ))
  {}

  // ----- the next line -----

  /** A slashdash that has found nothing on its line waits for the next one: a line break, or a comment to the end of the line, is nothing. */
  lemma SlashdashWaits(e: Env, c: Config, comment: Token, blanks: seq<Token>, newline: Token)
    requires c.phase.Inside? && c.phase.st == AtParams && c.skipEntry && c.annotation.NoAnnotation? && !c.cont
    requires comment.id.SingleLineComment? && (forall k :: 0 <= k < |blanks| ==> blanks[k].id.Whitespace?) && newline.id.Newline?
    ensures Step(e, c, newline) == Some(c)
    ensures Run(e, c, [comment] + (blanks + [newline])) == Some(c)
  {
    var d := Goto(c, AtEnd);
    assert Step(e, c, comment) == Some(d);
    BlanksAtEnd(e, d, blanks);
    assert Step(e, d, newline) == Some(c);
    hide Step;
    RunOne(e, c, comment);
    RunAppend(e, c, [comment], blanks + [newline]);
    RunAppend(e, d, blanks, [newline]);
    RunOne(e, d, newline);
  }

  lemma {:induction false} BlanksAtEnd(e: Env, c: Config, blanks: seq<Token>)
    requires c.phase.Inside? && c.phase.st == AtEnd && c.annotation.NoAnnotation? && forall k :: 0 <= k < |blanks| ==> blanks[k].id.Whitespace?
    ensures Run(e, c, blanks) == Some(c)
    decreases |blanks|
  {
    if blanks != [] {
      assert Step(e, c, blanks[0]) == Some(c);
      BlanksAtEnd(e, c, blanks[1..]);
    }
  }

  // ----- beyond its node -----

  /** A terminator that ends a node leaves a slashdash behind exactly when one is waiting and no entry is pending. */
  lemma TerminatorLeavesSlashdash(e: Env, c: Config, t: Token, d: Config)
    requires Shape(c) && c.phase.Inside? && IsTerminator(t.id) && Step(e, c, t) == Some(d) && d.phase.Between?
    ensures d.skipEntry <==> c.skipEntry && !c.ident.Valid()
  {
    hide CommitAndLeave, EndNode, Commit, NextEntry, BeforeComment;
    var c' := c.(cont := false);
    EndKeepsSlashdash(e, c', TokenEnd(e, t));
    LeavesSlashdash(e, c', t);
  }

  lemma EndKeepsSlashdash(e: Env, c: Config, end: nat)
    requires c.phase.Inside?
    ensures EndNode(e, c, end).skipEntry == c.skipEntry
  {}

  lemma LeavesSlashdash(e: Env, c: Config, t: Token)
    requires c.phase.Inside? && IsTerminator(t.id)
    ensures CommitAndLeave(e, c, t).Some? ==> (CommitAndLeave(e, c, t).value.skipEntry <==> c.skipEntry && !c.ident.Valid())
  {
    hide EndNode;
    if CommitPending(e, c).Some? { EndKeepsSlashdash(e, CommitPending(e, c).value, TokenEnd(e, t)); }
  }

  /** Between two nodes, with nothing but possibly a slashdash left over. */
  predicate NothingElsePending(c: Config) {
    c.phase.Between? && c.annotation.NoAnnotation? && !c.cont && !c.skipNode && c.typ == NO_TOKEN && c.ident == NO_TOKEN
  }

  /** A node with a name and one value. */
  function OneValue(e: Env, c: Config, name: Token, args: seq<Value>): Config
    requires e.decode(name).Some?
  {
    var node := Node(ValueOf(e.decode, name, NO_TOKEN).value, [], args, [], [], None);
    c.(phase := Inside(OpenNode(node, InDropped(c.blocks), c.lastEnd), AtArgProp, false), skipEntry := false)
  }

  /**
   * Main result: a node reads its own value exactly when no slashdash is left over from the node before it; otherwise the
   * slashdash takes the value.
   */
  lemma LeftoverTakesEntry(e: Env, c: Config, name: Token, blank: Token, v: Token, last: Token)
    requires NothingElsePending(c) && IsIdentifier(name.id) && e.decode(name).Some? && blank.id.Whitespace?
    requires IsValue(v.id) && !v.id.SuffixedDecimal? && e.decode(v).Some? && last.id.Newline?
    ensures Run(e, c, [name, blank, v, last]) == Some(EndNode(e, OneValue(e, c, name, KeptIf(e, !c.skipEntry, v)), last.offset + |last.data|))
  {
    var all := [name, blank, v, last];
    var c1 := NamedIs(e, c, name);
    var c2 := Goto(c1, AtParams);
    var c3 := Goto(c2, AtArgProp).(ident := v);
    assert Step(e, c1, blank) == Some(c2);
    assert Step(e, c2, v) == Some(c3);
    assert all[1..] == [blank, v, last] && all[1..][1..] == [v, last] && all[1..][1..][1..] == [last];
    hide Step, EndNode;
    RunHead(e, c, all, c1);
    RunHead(e, c1, all[1..], c2);
    RunHead(e, c2, all[1..][1..], c3);
    RunOne(e, c3, last);
    OneValueEnds(e, c, c3, name, v, last);
  }

  lemma NamedIs(e: Env, c: Config, name: Token) returns (d: Config)
    requires NothingElsePending(c) && IsIdentifier(name.id) && e.decode(name).Some?
    ensures Step(e, c, name) == Some(d)
    ensures d == c.(phase := Inside(OpenNode(Node(ValueOf(e.decode, name, NO_TOKEN).value, [], [], [], [], None), InDropped(c.blocks), c.lastEnd), AtNode, false))
  {
    d := Step(e, c, name).value;
  }

  lemma OneValueEnds(e: Env, c: Config, c3: Config, name: Token, v: Token, last: Token)
    requires NothingElsePending(c) && e.decode(name).Some? && IsValue(v.id) && e.decode(v).Some? && last.id.Newline?
    requires c3 == OneValue(e, c, name, []).(ident := v, skipEntry := c.skipEntry)
    ensures Step(e, c3, last) == Some(EndNode(e, OneValue(e, c, name, KeptIf(e, !c.skipEntry, v)), last.offset + |last.data|))
  {
    assert [] + KeptIf(e, true, v) == KeptIf(e, true, v);
  }
}
