// An entry behind a child block is not always refused: behind a block that follows an argument it is read, and a null with it.
module BehindBlocks {
  import opened Basics
  import opened Tokens
  import opened Documents
  import opened Machine
  import Values

  /** Behind a child block, or behind whitespace that follows one, with nothing pending. */
  predicate BehindBlock(c: Config) {
    && c.phase.Inside? && c.phase.seen && c.phase.st in {AtNode, AtParams, AtArgProp, AtPostWS}
    && c.annotation.NoAnnotation? && !c.cont && !c.skipEntry && c.ident == NO_TOKEN && c.typ == NO_TOKEN
  }

  /** With a pending value, and these arguments. */
  function Accepting(c: Config, args: seq<Value>, v: Token): Config
    requires c.phase.Inside?
  {
    c.(phase := c.phase.(open := c.phase.open.(node := c.phase.open.node.(args := c.phase.open.node.args + args)), st := AtArgProp), ident := v)
  }

  /** What no token stands for: a null without text. */
  const PHANTOM := Value(NullValue, [], None)

  /**
   * Main result: a value behind a child block, with or without whitespace between them, is refused exactly if the block stands
   * behind a name or a property. Otherwise it is read as a further argument, and where whitespace stands before the block or
   * behind it, a null that is nowhere in the text is read in front of it.
   */
  lemma ValueBehindBlock(e: Env, c: Config, blanks: seq<Token>, v: Token)
    requires BehindBlock(c) && |blanks| <= 1 && (forall k :: 0 <= k < |blanks| ==> blanks[k].id.Whitespace?)
    requires IsValue(v.id) && e.decode == Values.Meaning
    ensures var d := Run(e, c, blanks + [v]);
      if c.phase.st == AtNode || c.phase.st == AtParams then d == None
      else d == Some(Accepting(c, if c.phase.st == AtArgProp && blanks == [] then [] else [PHANTOM], v))
  {
    assert e.decode(NO_TOKEN) == Some(NullValue);
    var st := if blanks == [] then c.phase.st else if c.phase.st == AtNode || c.phase.st == AtParams then AtParams else AtPostWS;
    var m := Goto(c, st);
    if blanks != [] {
      assert blanks == [blanks[0]] && Step(e, c, blanks[0]) == Some(m);
      assert ([blanks[0]] + [v])[1..] == [v];
    } else {
      assert [] + [v] == [v];
    }
    assert c.phase.open.node.args + [] == c.phase.open.node.args;
    NextIsRead(e, m, v);
    hide Step;
    RunOne(e, m, v);
  }

  lemma NextIsRead(e: Env, c: Config, v: Token)
    requires BehindBlock(c) && IsValue(v.id) && e.decode(NO_TOKEN) == Some(NullValue)
    ensures var d := Step(e, c, v);
      if c.phase.st == AtNode || c.phase.st == AtParams then d == None
      else d == Some(Accepting(c, if c.phase.st == AtArgProp then [] else [PHANTOM], v))
  {
    assert c.phase.open.node.args + [] == c.phase.open.node.args;
  }

  // ----- one such document -----

  function Word(c: char, offset: nat): Token
    requires c as int < 128
  {
    Token(BareIdentifier, [c as int], offset)
  }

  const BLANK := Token(Whitespace, [0x20], 0)

  function TextValue(c: char): Value
    requires c as int < 128
  {
    Value(Text([c as int]), [], Some([c as int]))
  }

  /** The node n with these arguments and a block, open in this state. */
  function WithArgs(args: seq<Value>, st: NodeState, ident: Token): Config {
    INITIAL.(phase := Inside(OpenNode(Node(TextValue('n'), [], args, [], [], None), false, 0), st, true), ident := ident)
  }

  /** n and a, in front of something else. */
  function WithArgument(st: NodeState): Config {
    INITIAL.(phase := Inside(OpenNode(Node(TextValue('n'), [], [], [], [], None), false, 0), st, false), ident := Word('a', 2))
  }

  lemma ArgumentIsRead(e: Env)
    requires e.decode == Values.Meaning
    ensures Run(e, INITIAL, [Word('n', 0), BLANK, Word('a', 2), BLANK]) == Some(WithArgument(AtPostWS))
  {
    var ts := [Word('n', 0), BLANK, Word('a', 2), BLANK];
    var c1 := INITIAL.(phase := Inside(OpenNode(Node(TextValue('n'), [], [], [], [], None), false, 0), AtNode, false));
    var c2 := Goto(c1, AtParams);
    assert Step(e, INITIAL, ts[0]) == Some(c1) && Step(e, c1, ts[1]) == Some(c2) && Step(e, c2, ts[2]) == Some(WithArgument(AtArgProp));
    assert Step(e, WithArgument(AtArgProp), ts[3]) == Some(WithArgument(AtPostWS));
    hide Step;
    RunHead(e, INITIAL, ts, c1);
    RunHead(e, c1, ts[1..], c2);
    RunHead(e, c2, ts[1..][1..], WithArgument(AtArgProp));
    assert ts[1..][1..][1..] == [BLANK];
    RunOne(e, WithArgument(AtArgProp), BLANK);
  }

  function InBlock(open: Token): Config {
    var owner := OpenNode(Node(TextValue('n'), [], [TextValue('a')], [], [], None), false, 0);
    INITIAL.(blocks := [Block(owner, AtPostWS, [], 0, open.offset + 1, false)], lastEnd := open.offset + 1)
  }

  lemma BlockOpens(e: Env, open: Token)
    requires e.decode == Values.Meaning && open.id.BraceOpen?
    ensures Step(e, WithArgument(AtPostWS), open) == Some(InBlock(open))
  {
    assert [] + [TextValue('a')] == [TextValue('a')] && ValueOf(e.decode, Word('a', 2), NO_TOKEN) == Some(TextValue('a'));
    assert INITIAL.blocks + InBlock(open).blocks == InBlock(open).blocks;
  }

  lemma BlockShuts(e: Env, open: Token, shut: Token)
    requires shut.id.BraceClose?
    ensures Step(e, InBlock(open), shut) == Some(WithArgs([TextValue('a')], AtPostWS, NO_TOKEN))
  {}

  /** n a {} in front of something else: the block is shut, and the argument is there. */
  lemma BlockIsRead(e: Env, open: Token, shut: Token)
    requires e.decode == Values.Meaning && open.id.BraceOpen? && shut.id.BraceClose?
    ensures Run(e, INITIAL, [Word('n', 0), BLANK, Word('a', 2), BLANK, open, shut]) == Some(WithArgs([TextValue('a')], AtPostWS, NO_TOKEN))
  {
    hide Step, Run, InBlock, WithArgument, WithArgs;
    var front := [Word('n', 0), BLANK, Word('a', 2), BLANK];
    assert [Word('n', 0), BLANK, Word('a', 2), BLANK, open, shut] == front + ([open] + [shut]);
    ArgumentIsRead(e);
    BlockOpens(e, open);
    BlockShuts(e, open, shut);
    RunAppend(e, INITIAL, front, [open] + [shut]);
    RunAppend(e, WithArgument(AtPostWS), [open], [shut]);
    RunOne(e, WithArgument(AtPostWS), open);
    RunOne(e, InBlock(open), shut);
  }

  /** n a {} b: three arguments are read, the second of which is a null. */
  lemma NullIsReadBehindBlock(e: Env, open: Token, shut: Token)
    requires e.decode == Values.Meaning && open.id.BraceOpen? && shut.id.BraceClose?
    ensures var c := ParseAll(e, [Word('n', 0), BLANK, Word('a', 2), BLANK, open, shut, BLANK, Word('b', 7)]);
      c.Some? && |c.value.doc| == 1 && c.value.doc[0].args == [TextValue('a'), PHANTOM, TextValue('b')]
  {
    var front, rest := [Word('n', 0), BLANK, Word('a', 2), BLANK, open, shut], [BLANK] + [Word('b', 7)];
    var c := WithArgs([TextValue('a')], AtPostWS, NO_TOKEN);
    BlockIsRead(e, open, shut);
    ValueBehindBlock(e, c, [BLANK], Word('b', 7));
    var d := WithArgs([TextValue('a'), PHANTOM], AtArgProp, Word('b', 7));
    assert [TextValue('a')] + [PHANTOM] == [TextValue('a'), PHANTOM];
    assert Accepting(c, [PHANTOM], Word('b', 7)) == d;
    EndsWithArgument(e, d);
    hide Step, Run, WithArgs;
    assert [Word('n', 0), BLANK, Word('a', 2), BLANK, open, shut, BLANK, Word('b', 7)] + [EOF_TOKEN] == front + (rest + [EOF_TOKEN]);
    RunAppend(e, INITIAL, front, rest + [EOF_TOKEN]);
    RunAppend(e, c, rest, [EOF_TOKEN]);
    RunOne(e, d, EOF_TOKEN);
  }

  lemma EndsWithArgument(e: Env, d: Config)
    requires e.decode == Values.Meaning && d == WithArgs([TextValue('a'), PHANTOM], AtArgProp, Word('b', 7))
    ensures var c := Step(e, d, EOF_TOKEN);
      c.Some? && |c.value.doc| == 1 && c.value.doc[0].args == [TextValue('a'), PHANTOM, TextValue('b')]
  {}
}
