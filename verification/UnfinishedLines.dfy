// What becomes of a node that is appended behind an unfinished line: three sources, and the same node behind each of them.
module UnfinishedLines {
  import opened Basics
  import opened Tokens
  import opened Documents
  import opened Utf8
  import opened Machine
  import opened Generator
  import opened Completeness
  import opened Preserving
  import opened Printing
  import opened RoundTrip
  import opened Reformatting
  import opened Spellings
  import opened TopLevel
  import opened Appending
  import Joining
  import Lexer
  import Multiline

  const A: Bytes := [0x61]
  const B: Bytes := [0x62]
  const SLASHES: Bytes := [0x2F, 0x2F]

  function Named(name: Bytes): Node { Node(Value(Text(name), [], None), [], [], [], [], None) }

  /** A node with a name and one argument, both text. */
  function WithArgument(name: Bytes, arg: Bytes): Node { Named(name).(args := [Value(Text(arg), [], None)]) }

  lemma Letters()
    ensures NameReadsBack(A) && NameReadsBack(B) && NameReadsBack(A + B) && IsBareName(A) && IsBareName(B) && IsBareName(A + B)
  {
    AsciiDecodes(A, 0);
    AsciiDecodes(B, 0);
    AsciiDecodes(A + B, 0);
    AsciiDecodes(A + B, 1);
    assert BareFrom(A + B, 1) && RunesFrom(A + B, 1);
    assert |Lexer.TRUE| == 4 && |Lexer.FALSE| == 5 && |Lexer.NULL_WORD| == 4 && |Lexer.INF| == 3 && |Lexer.MINUS_INF| == 4 && |Lexer.NAN| == 3;
  }

  // ----- scanning -----

  lemma NameLexes(w: Bytes, t: Bytes, i: nat)
    requires NameReadsBack(w) && IsBareName(w) && StandsAt(w, t, i) && w != []
    requires i + |w| < |t| ==> t[i + |w|] == SP || t[i + |w|] == NL
    ensures Lexes(t, i, [Piece(BareIdentifier, w)], i + |w|)
  {
    hide Lexer.NextToken, IsBareName, RunesFrom, Lexer.Reserved, LooksNumeric;
    forall b ensures Lexer.NextToken(t, i, b) == Lexer.Lexed(BareIdentifier, i + |w|, true) { BareNameRoundTrip(w, t, i, b); }
    LexesOne(t, i, Piece(BareIdentifier, w));
  }

  lemma LastSpaceLexes(t: Bytes, i: nat)
    requires i + 1 == |t| && t[i] == SP
    ensures Lexes(t, i, [SPACE], i + 1)
  {
    AsciiDecodes(t, i);
    assert t[i..i + 1] == [SP];
    LexesOne(t, i, SPACE);
  }

  /** A comment up to the end of the line, of ASCII characters. */
  lemma CommentLexes(w: Bytes, t: Bytes, i: nat)
    requires StandsAt(SLASHES + w, t, i) && |w| <= 1 && (|w| == 1 ==> w == B)
    requires i + 2 + |w| < |t| ==> t[i + 2 + |w|] == NL
    ensures Lexes(t, i, [Piece(SingleLineComment, SLASHES + w)], i + 2 + |w|)
  {
    StandsPart(SLASHES + w, t, i, 0, 2 + |w|);
    assert t[i + 0] == SLASHES[0] && t[i + 1] == SLASHES[1];
    AsciiDecodes(t, i);
    AsciiDecodes(t, i + 1);
    if w != [] {
      assert t[i + 2] == (SLASHES + w)[2] == B[0];
      AsciiDecodes(t, i + 2);
    }
    if i + 2 + |w| < |t| { AsciiDecodes(t, i + 2 + |w|); }
    var e := i + 2 + |w|;
    assert Lexer.SkipUntil(t, e, IsNewline) == e;
    assert Lexer.SkipUntil(t, i + 2, IsNewline) == e;
    assert Lexer.SlashToken(t, i) == Lexer.Lexed(SingleLineComment, e, true);
    hide Lexer.SlashToken, Lexer.HashToken, Lexer.ZeroToken, Lexer.DecimalNumber, Lexer.Identifier, Lexer.BlankToken;
    LexesOne(t, i, Piece(SingleLineComment, SLASHES + w));
  }

  // ----- parsing -----

  lemma FirstName(source: Bytes, t: Token) returns (m: Node)
    requires t.id.BareIdentifier?
    ensures Run(Reader(source), INITIAL, [t]) == Some(Fresh(INITIAL, Spot(m, NO_TOKEN, NO_TOKEN))) && Erase(m) == Named(t.data)
    ensures m.args == [] && m.props == [] && m.children == []
  {
    var e := Reader(source);
    var v := ValueOf(e.decode, t, NO_TOKEN).value;
    m := Node(v, [], [], [], [], None);
    NameReads(e, INITIAL, t, NO_TOKEN, v);
    assert INITIAL.(typ := NO_TOKEN) == INITIAL;
    hide Step;
    RunOne(e, INITIAL, t);
  }

  /** In the line, behind whitespace or behind a comment. */
  function Line(m: Node, st: NodeState): Config { In(INITIAL, st, Spot(m, NO_TOKEN, NO_TOKEN), false) }

  lemma BlankThen(e: Env, m: Node, t: Token)
    requires t.id.Whitespace?
    ensures Step(e, Line(m, AtNode), t) == Some(Line(m, AtParams))
  {}

  lemma CommentThen(e: Env, m: Node, t: Token)
    requires t.id.SingleLineComment?
    ensures Step(e, Line(m, AtParams), t) == Some(Line(m, AtEnd))
  {}

  /** A line feed or the end of the input ends the node. */
  lemma LineEnds(e: Env, m: Node, st: NodeState, t: Token)
    requires st in {AtNode, AtParams, AtEnd} && (t.id.Newline? || t.id.EOF?)
    ensures Step(e, Line(m, st), t) == Some(EndNode(e, Line(m, st), TokenEnd(e, t)))
  {}

  lemma Ended(e: Env, m: Node, st: NodeState, end: nat)
    ensures var d := EndNode(e, Line(m, st), end);
      Resting(d) && d.lastEnd == end && d.annotation.NoAnnotation? && !Unresolved(d) && !d.cont && |d.doc| == 1 && Erase(d.doc[0]) == Erase(m)
  {
    CloseErases(e, OpenNode(m, false, 0), end);
  }

  /** What is shown when a line feed ends the line. */
  lemma LineShows(e: Env, tokens: seq<Token>, c: Config, m: Node, st: NodeState, last: Token)
    requires Run(e, INITIAL, tokens) == Some(c) && !last.id.EOF? && Step(e, c, last) == Some(EndNode(e, Line(m, st), TokenEnd(e, last)))
    ensures var d := ParseAll(e, tokens + [last]); d.Some? && EraseAll(Visible(d.value)) == [Erase(m)]
  {
    hide Step, EndNode, Erase, Run;
    Ended(e, m, st, TokenEnd(e, last));
    var d := EndNode(e, Line(m, st), TokenEnd(e, last));
    RunAppend(e, INITIAL, tokens, [last]);
    RunAppend(e, INITIAL, tokens + [last], [EOF_TOKEN]);
    RunOne(e, c, last);
    RunOne(e, d, EOF_TOKEN);
    EofRests(e, d);
    AtMostOneMore(d);
    assert d.doc == [] + [d.doc[0]];
    EraseAllSnoc([], d.doc[0]);
  }

  lemma {:induction false} NoSlashdash(e: Env, c: Config, tokens: seq<Token>)
    requires forall k :: 0 <= k < |tokens| ==> !tokens[k].id.TokenComment?
    ensures !AnySlashdashAtTop(e, c, tokens)
    decreases |tokens|
  {
    hide Step;
    if tokens != [] && Step(e, c, tokens[0]).Some? { NoSlashdash(e, Step(e, c, tokens[0]).value, tokens[1..]); }
  }

  lemma {:induction false} NoBraces(tokens: seq<Token>)
    requires forall k :: 0 <= k < |tokens| ==> !tokens[k].id.BraceOpen? && !tokens[k].id.BraceClose?
    ensures Braces(tokens) == 0
  {
    if tokens != [] { NoBraces(tokens[1..]); }
  }

  lemma LineIsRead(source: Bytes, tokens: seq<Token>, stop: nat, m: Node, st: NodeState)
    requires Lexer.ScanFrom(source, 0, false) == Lexer.Scanned(tokens, stop)
    requires Run(Reader(source), INITIAL, tokens) == Some(Line(m, st)) && st in {AtNode, AtParams, AtEnd}
    ensures Reread(source) == Some(EndNode(Reader(source), Line(m, st), |source|)) && TokensOf(source) == tokens
  {
    var e := Reader(source);
    LineEnds(e, m, st, EOF_TOKEN);
    ReaderIs(source);
    hide Step, Run, EndNode, Line, Reader, Lexer.ScanFrom;
    RunAppend(e, INITIAL, tokens, [EOF_TOKEN]);
    RunOne(e, Line(m, st), EOF_TOKEN);
  }

  lemma LineCloses(e: Env, tokens: seq<Token>, m: Node, st: NodeState)
    requires Run(e, INITIAL, tokens) == Some(Line(m, st))
    requires forall k :: 0 <= k < |tokens| ==> !tokens[k].id.TokenComment? && !tokens[k].id.BraceOpen? && !tokens[k].id.BraceClose?
    ensures ClosesAll(e, tokens) && !AnySlashdashAtTop(e, INITIAL, tokens + [EOF_TOKEN])
  {
    hide Run, AnySlashdashAtTop, Braces;
    NoBraces(tokens);
    NoSlashdash(e, INITIAL, tokens + [EOF_TOKEN]);
  }

  /** A source that is one line, ended by the end of the input. */
  lemma LineIsSource(source: Bytes, tokens: seq<Token>, stop: nat, m: Node, st: NodeState)
    requires Lexer.ScanFrom(source, 0, false) == Lexer.Scanned(tokens, stop)
    requires Run(Reader(source), INITIAL, tokens) == Some(Line(m, st)) && st in {AtNode, AtParams, AtEnd}
    requires forall k :: 0 <= k < |tokens| ==> !tokens[k].id.TokenComment? && !tokens[k].id.BraceOpen? && !tokens[k].id.BraceClose?
    ensures Preserves(source) && !EndsLine(source) && Read(source).lastEnd == |source|
  {
    hide Step, Run, EndNode, Erase, Resting, Unresolved, Reader, Lexer.ScanFrom, AnySlashdashAtTop, ClosesAll, Reread;
    LineIsRead(source, tokens, stop, m, st);
    LineCloses(Reader(source), tokens, m, st);
    Ended(Reader(source), m, st, |source|);
  }

  // ----- the node behind each of them -----

  lemma NodeCanBeAppended(o: Options)
    requires o.preserve && o.spelling == SPELLED && Multiline.BlankFrom(o.indent, 0)
    ensures CanAppend(o, Named(B))
  {
    Letters();
    hide NameReadsBack, Multiline.BlankFrom;
  }

  lemma NodeIsWritten(o: Options)
    requires o.spelling == SPELLED
    ensures NodeText(o, Named(B)) == B + [NL]
  {
    Letters();
    hide NameReadsBack, IsBareName;
    assert NodePieces(Formatting(o), 0, Named(B)) == [Piece(BareIdentifier, B)] + [LINE_FEED];
    RenderAppend([Piece(BareIdentifier, B)], [LINE_FEED]);
    RenderOnePiece(Piece(BareIdentifier, B));
    RenderOnePiece(LINE_FEED);
  }

  lemma TextIs(o: Options, source: Bytes)
    requires o.preserve && o.spelling == SPELLED && Multiline.BlankFrom(o.indent, 0)
    requires Preserves(source) && Read(source).lastEnd == |source|
    ensures AppendedText(o, source, Named(B)) == source + B + [NL]
  {
    hide AppendedText, NodeText, Preserves, CanAppend, Reread, Multiline.BlankFrom;
    NodeIsWritten(o);
    NodeCanBeAppended(o);
    Joining.AppendedAtEnd(o, source, Named(B));
  }

  lemma ScannedAs(t: Bytes, pieces: seq<Piece>, tokens: seq<Token>)
    requires Lexer.ScanFrom(t, 0, false) == Lexer.Scanned(tokens, |t|) && Matches(tokens, pieces)
    requires ParseAll(Reader(t), tokens).Some?
    ensures Shows(t, EraseAll(Visible(ParseAll(Reader(t), tokens).value)))
  {
    hide ParseAll, Reader, EraseAll, Visible;
    ReaderIs(t);
  }

  /** Directly behind a name, the node's name becomes part of it. */
  lemma BehindName(o: Options)
    requires o.preserve && o.spelling == SPELLED && Multiline.BlankFrom(o.indent, 0)
    ensures Preserves(A) && Shows(AppendedText(o, A, Named(B)), [Named(A + B)])
  {
    hide Lexer.NextToken, Lexer.ScanFrom, ParseAll, Run, Step, Reader, NameReadsBack, IsBareName, Erase, EraseAll, Visible, Lexes, Line,
      AppendedText, Preserves, EndNode, Reread, Multiline.BlankFrom;
    Letters();
    NameLexes(A, A, 0);
    var source := LexedPiecesScan(A, 0, [Piece(BareIdentifier, A)], false);
    var m := FirstName(A, source[0]);
    assert source == [source[0]];
    AtLine(m);
    LineIsSource(A, source, |A|, m, AtNode);
    TextIs(o, A);
    var t := A + B + [NL];
    assert t[0..2] == A + B && t[2..3] == [NL];
    NameLexes(A + B, t, 0);
    MarkScans(LINE_FEED, t, 2);
    LexesAppend(t, 0, [Piece(BareIdentifier, A + B)], 2, [LINE_FEED], 3);
    var tokens := LexedPiecesScan(t, 0, [Piece(BareIdentifier, A + B)] + [LINE_FEED], false);
    var m' := FirstName(t, tokens[0]);
    assert tokens == [tokens[0]] + [tokens[1]];
    AtLine(m');
    LineEnds(Reader(t), m', AtNode, tokens[1]);
    LineShows(Reader(t), [tokens[0]], Line(m', AtNode), m', AtNode, tokens[1]);
    ScannedAs(t, [Piece(BareIdentifier, A + B)] + [LINE_FEED], tokens);
  }

  lemma AtLine(m: Node)
    ensures Fresh(INITIAL, Spot(m, NO_TOKEN, NO_TOKEN)) == Line(m, AtNode)
  {}

  /** Behind whitespace, the node's name becomes an argument. */
  lemma BehindBlank(o: Options)
    requires o.preserve && o.spelling == SPELLED && Multiline.BlankFrom(o.indent, 0)
    ensures Preserves(A + [SP]) && Shows(AppendedText(o, A + [SP], Named(B)), [WithArgument(A, B)])
  {
    hide Lexer.NextToken, Lexer.ScanFrom, ParseAll, Run, Step, Reader, NameReadsBack, IsBareName, Erase, EraseAll, Visible, Lexes, Line,
      AppendedText, Preserves, EndNode, Reread, Multiline.BlankFrom;
    BlankSource();
    TextIs(o, A + [SP]);
    var t := A + [SP] + B + [NL];
    var pieces := [Piece(BareIdentifier, A)] + ([SPACE] + ([Piece(BareIdentifier, B)] + [LINE_FEED]));
    WordsLex(t);
    var tokens := LexedPiecesScan(t, 0, pieces, false);
    WordsParse(t, tokens);
    ScannedAs(t, pieces, tokens);
  }

  lemma BlankSource()
    ensures Preserves(A + [SP]) && Read(A + [SP]).lastEnd == |A + [SP]|
  {
    hide Lexer.NextToken, Lexer.ScanFrom, ParseAll, Run, Step, Reader, NameReadsBack, IsBareName, Erase, EraseAll, Visible, Lexes, Line,
      Preserves, EndNode, Reread;
    var s := A + [SP];
    Letters();
    assert s[0..1] == A;
    NameLexes(A, s, 0);
    LastSpaceLexes(s, 1);
    LexesAppend(s, 0, [Piece(BareIdentifier, A)], 1, [SPACE], 2);
    var tokens := LexedPiecesScan(s, 0, [Piece(BareIdentifier, A)] + [SPACE], false);
    var m := BlankParses(s, tokens);
    LineIsSource(s, tokens, |s|, m, AtParams);
  }

  /** A name and whitespace. */
  lemma BlankParses(s: Bytes, tokens: seq<Token>) returns (m: Node)
    requires |tokens| >= 2 && tokens[0].id.BareIdentifier? && tokens[1].id.Whitespace?
    ensures Run(Reader(s), INITIAL, tokens[..2]) == Some(Line(m, AtParams)) && Erase(m) == Named(tokens[0].data)
    ensures m.args == [] && tokens[..2] == [tokens[0], tokens[1]] && (|tokens| == 2 ==> tokens[..2] == tokens)
  {
    hide Run, Step, Reader, Erase, Line;
    m := FirstName(s, tokens[0]);
    AtLine(m);
    BlankThen(Reader(s), m, tokens[1]);
    RunOne(Reader(s), Line(m, AtNode), tokens[1]);
    RunAppend(Reader(s), INITIAL, [tokens[0]], [tokens[1]]);
    assert tokens[..2] == [tokens[0]] + [tokens[1]];
  }

  lemma WordsLex(t: Bytes)
    requires t == A + [SP] + B + [NL]
    ensures Lexes(t, 0, [Piece(BareIdentifier, A)] + ([SPACE] + ([Piece(BareIdentifier, B)] + [LINE_FEED])), 4)
  {
    hide Lexer.NextToken, NameReadsBack, IsBareName, Lexes;
    Letters();
    assert t[0..1] == A && t[1..2] == [SP] && t[2..3] == B && t[3..4] == [NL];
    NameLexes(A, t, 0);
    WordAtLetter(t);
    SpaceIsBlank();
    BlankScans(SPACE.data, t, 1);
    NameLexes(B, t, 2);
    MarkScans(LINE_FEED, t, 3);
    LexesAppend(t, 2, [Piece(BareIdentifier, B)], 3, [LINE_FEED], 4);
    LexesAppend(t, 1, [SPACE], 2, [Piece(BareIdentifier, B)] + [LINE_FEED], 4);
    LexesAppend(t, 0, [Piece(BareIdentifier, A)], 1, [SPACE] + ([Piece(BareIdentifier, B)] + [LINE_FEED]), 4);
  }

  lemma WordAtLetter(t: Bytes)
    requires |t| > 2 && t[2] == B[0]
    ensures WordAt(t, 2)
  {
    AsciiDecodes(t, 2);
  }

  lemma WordsParse(t: Bytes, tokens: seq<Token>)
    requires Matches(tokens, [Piece(BareIdentifier, A)] + ([SPACE] + ([Piece(BareIdentifier, B)] + [LINE_FEED])))
    ensures var d := ParseAll(Reader(t), tokens); d.Some? && EraseAll(Visible(d.value)) == [WithArgument(A, B)]
  {
    var e := Reader(t);
    var m := BlankParses(t, tokens);
    var x, last := tokens[2], tokens[3];
    var v := ValueOf(e.decode, x, NO_TOKEN).value;
    var m' := m.(args := m.args + [v]);
    InitialIsIdle();
    PlainEntryReads(e, INITIAL, Spot(m, NO_TOKEN, NO_TOKEN), x, m);
    var s := Spot(m, x, NO_TOKEN);
    LineFeedEnds(e, INITIAL, s, m', last);
    ArgumentErases(m, v);
    assert tokens == [tokens[0], tokens[1], x] + [last] && [tokens[0], tokens[1], x] == tokens[..2] + [x];
    hide Step, Run, EraseAll, EndNode, Visible;
    RunOne(e, Line(m, AtParams), x);
    RunAppend(e, INITIAL, tokens[..2], [x]);
    LineShows(e, [tokens[0], tokens[1], x], Fresh(INITIAL, s), m', AtArgProp, last);
  }

  lemma ArgumentErases(m: Node, v: Value)
    requires Erase(m) == Named(A) && m.args == [] && EraseValue(v) == Value(Text(B), [], None)
    ensures Erase(m.(args := m.args + [v])) == WithArgument(A, B)
  {
    assert EraseValues([] + [v]) == [EraseValue(v)];
  }

  lemma InitialIsIdle()
    ensures Idle(INITIAL)
  {}

  /** Behind a comment, the node is lost without an error. */
  lemma BehindComment(o: Options)
    requires o.preserve && o.spelling == SPELLED && Multiline.BlankFrom(o.indent, 0)
    ensures Preserves(A + [SP] + SLASHES) && Shows(AppendedText(o, A + [SP] + SLASHES, Named(B)), [Named(A)])
  {
    hide Lexer.NextToken, Lexer.ScanFrom, ParseAll, Run, Step, Reader, NameReadsBack, IsBareName, Erase, EraseAll, Visible, Lexes, Line,
      AppendedText, Preserves, EndNode, Reread, Multiline.BlankFrom;
    var s := A + [SP] + SLASHES;
    var t := s + B + [NL];
    CommentSource();
    TextIs(o, s);
    var pieces := CommentPieces(B) + [LINE_FEED];
    CommentLex(t, B);
    assert t[5..6] == [NL];
    MarkScans(LINE_FEED, t, 5);
    LexesAppend(t, 0, CommentPieces(B), 5, [LINE_FEED], 6);
    var tokens := LexedPiecesScan(t, 0, pieces, false);
    assert tokens[0].data == A && pieces[0].data == A && pieces[3] == LINE_FEED;
    var m := CommentParses(t, tokens);
    LineEnds(Reader(t), m, AtEnd, tokens[3]);
    assert tokens == tokens[..3] + [tokens[3]];
    LineShows(Reader(t), tokens[..3], Line(m, AtEnd), m, AtEnd, tokens[3]);
    ScannedAs(t, pieces, tokens);
  }

  /** A name, whitespace and a comment. */
  function CommentPieces(w: Bytes): seq<Piece> { [Piece(BareIdentifier, A)] + ([SPACE] + [Piece(SingleLineComment, SLASHES + w)]) }

  lemma CommentSource()
    ensures var s := A + [SP] + SLASHES; Preserves(s) && Read(s).lastEnd == |s|
  {
    hide Lexer.NextToken, Lexer.ScanFrom, ParseAll, Run, Step, Reader, Erase, EraseAll, Visible, Lexes, Line, Preserves, EndNode, Reread;
    var s := A + [SP] + SLASHES;
    CommentLex(s, []);
    var tokens := LexedPiecesScan(s, 0, CommentPieces([]), false);
    var m := CommentParses(s, tokens);
    assert tokens[..3] == tokens;
    LineIsSource(s, tokens, |s|, m, AtEnd);
  }

  lemma CommentLex(t: Bytes, w: Bytes)
    requires (w == [] || w == B) && StandsAt(A + [SP] + (SLASHES + w), t, 0) && (4 + |w| < |t| ==> t[4 + |w|] == NL)
    ensures Lexes(t, 0, CommentPieces(w), 4 + |w|)
  {
    hide Lexer.NextToken, NameReadsBack, IsBareName, Lexes;
    Letters();
    var all := A + [SP] + (SLASHES + w);
    StandsPart(all, t, 0, 0, 1);
    StandsPart(all, t, 0, 1, 2);
    StandsPart(all, t, 0, 2, 4 + |w|);
    assert all[0..1] == A && all[1..2] == [SP] && all[2..4 + |w|] == SLASHES + w;
    assert t[0 + 1] == all[1] && t[0 + 2] == all[2];
    NameLexes(A, t, 0);
    AsciiDecodes(t, 2);
    SpaceIsBlank();
    BlankScans(SPACE.data, t, 1);
    CommentLexes(w, t, 2);
    LexesAppend(t, 1, [SPACE], 2, [Piece(SingleLineComment, SLASHES + w)], 4 + |w|);
    LexesAppend(t, 0, [Piece(BareIdentifier, A)], 1, [SPACE] + [Piece(SingleLineComment, SLASHES + w)], 4 + |w|);
  }

  lemma CommentParses(s: Bytes, tokens: seq<Token>) returns (m: Node)
    requires |tokens| >= 3 && tokens[0].id.BareIdentifier? && tokens[1].id.Whitespace? && tokens[2].id.SingleLineComment?
    ensures Run(Reader(s), INITIAL, tokens[..3]) == Some(Line(m, AtEnd)) && Erase(m) == Named(tokens[0].data)
  {
    hide Run, Step, Reader, Erase, Line;
    m := BlankParses(s, tokens);
    CommentThen(Reader(s), m, tokens[2]);
    RunOne(Reader(s), Line(m, AtParams), tokens[2]);
    RunAppend(Reader(s), INITIAL, tokens[..2], [tokens[2]]);
    assert tokens[..3] == tokens[..2] + [tokens[2]];
  }
}
