// A node appended to a parsed document: what is written, and when it is read again as it was appended.
module Appending {
  import opened Basics
  import opened Tokens
  import opened Documents
  import opened Machine
  import opened Laws
  import opened Segments
  import opened Generator
  import opened Preserving
  import opened Completeness
  import opened Printing
  import opened RoundTrip
  import opened Reformatting
  import opened TopLevel
  import opened Rescanning
  import Editing
  import Lexer
  import Locality
  import Lossless
  import Multiline
  import Sourceless
  import Utf8

  // ----- what is written -----

  /** A node appended to a parsed document is written between the last node's bytes and the trailing ones. */
  lemma AppendedOutput(e: Env, tokens: seq<Token>, q: nat, d: Config, o: Options, n: Node)
    requires q <= |e.source| && Tiles(e.source, tokens, 0, q)
    requires ParseAll(e, tokens) == Some(d) && ClosesAll(e, tokens) && o.preserve && !AnySlashdashAtTop(e, INITIAL, tokens + [EOF_TOKEN])
    ensures d.lastEnd <= |e.source|
    ensures var doc := ParsedDocument(e, d);
      DocumentOutput(o, doc.(nodes := doc.nodes + [n])) == e.source[..d.lastEnd] + NodeOutput(o, n) + e.source[d.lastEnd..]
  {
    hide NodeOutput, NodesOutput, ClosesAll, AnySlashdashAtTop, Segments.Nested, Chain, Carries;
    CompleteExactly(e, tokens, d);
    IgnoredIsSlashdashed(e, tokens, d);
    ParseTiled(e, tokens, d, q);
    LevelOutput(e.source, d.doc, d.segments, 0, d.lastEnd, 0, d.lastEnd, o);
    Editing.OutputAppend(o, d.doc, [n]);
    Editing.OutputOne(o, n);
    assert e.source[0..d.lastEnd] == e.source[..d.lastEnd];
  }

  /** The tokens of a source, and where the scan stops. */
  function TokensOf(source: Bytes): seq<Token> {
    match Lexer.ScanFrom(source, 0, false) case Failed => [] case Scanned(tokens, _) => tokens
  }

  /** A source that is read without an error, closes what it opens, and has no slashdash at the top level. */
  ghost predicate Preserves(source: Bytes) {
    && Reread(source).Some? && ClosesAll(Reader(source), TokensOf(source))
    && !AnySlashdashAtTop(Reader(source), INITIAL, TokensOf(source) + [EOF_TOKEN])
  }

  /** Where the parser is when only the end of the input is left to read. */
  function BeforeEof(source: Bytes): Option<Config> { Run(Reader(source), INITIAL, TokensOf(source)) }

  function Read(source: Bytes): Config
    requires Reread(source).Some?
  {
    Reread(source).value
  }

  /** What is written when a node is appended to the parsed source. */
  function AppendedText(o: Options, source: Bytes, n: Node): Bytes
    requires Reread(source).Some?
  {
    var doc := ParsedDocument(Reader(source), Read(source));
    DocumentOutput(o, doc.(nodes := doc.nodes + [n]))
  }

  /** The last node was ended by a line break or a semicolon, if there is a node at all. */
  predicate EndsLine(source: Bytes) { BeforeEof(source).Some? && BeforeEof(source).value.phase.Between? }

  /** A slashdash without a target is left over from the last node. */
  predicate LeavesSlashdash(source: Bytes) { EndsLine(source) && BeforeEof(source).value.skipEntry }

  // ----- the place where it is written -----

  lemma SourceReads(source: Bytes) returns (m: Config, stop: nat)
    requires Preserves(source)
    ensures var tokens := TokensOf(source);
      && Lexer.ScanFrom(source, 0, false) == Lexer.Scanned(tokens, stop) && stop <= |source|
      && ParseAll(Reader(source), tokens) == Some(Read(source))
      && Tiles(source, tokens, 0, stop) && (forall k :: 0 <= k < |tokens| ==> Lossless.Plain(tokens[k].id))
    ensures BeforeEof(source) == Some(m) && Step(Reader(source), m, EOF_TOKEN) == Some(Read(source)) && m.blocks == []
  {
    hide Step, Lexer.ScanFrom, Run, Reader, Lossless.Plain, Lossless.Strands, AnySlashdashAtTop, EofMeetsSlashdash;
    var e := Reader(source);
    Lossless.ScanTiles(source, 0, false);
    stop := Lexer.ScanFrom(source, 0, false).stop;
    ReaderIs(source);
    m := ParseSplits(e, TokensOf(source), Read(source));
    RunBraces(e, INITIAL, TokensOf(source), m);
  }

  lemma ReaderIs(source: Bytes)
    ensures Env(Reader(source).decode, source) == Reader(source)
  {}

  lemma PlainIsValid(tokens: seq<Token>)
    requires forall k :: 0 <= k < |tokens| ==> Lossless.Plain(tokens[k].id)
    ensures forall k :: 0 <= k < |tokens| ==> tokens[k].Valid() && !tokens[k].id.EOF?
  {}

  /** Behind the token that ended the last node. */
  lemma AtLastEnd(source: Bytes, tokens: seq<Token>, stop: nat, k: nat, b: Config, a: Config)
    requires Reads(source, 0, false, tokens, stop) && k <= |tokens| && Resting(a)
    requires forall i :: 0 <= i < |tokens| ==> tokens[i].Valid() && !tokens[i].id.EOF?
    requires k == 0 ==> a == INITIAL
    requires k > 0 ==> !Resting(b) && Step(Reader(source), b, tokens[k - 1]) == Some(a)
    ensures Reads(source, 0, false, tokens[..k], a.lastEnd) && a.lastEnd <= |source|
    ensures k > 0 ==> tokens[k - 1].id.Newline? || tokens[k - 1].id.Semicolon?
    ensures !a.cont && a.annotation.NoAnnotation?
  {
    hide Step, Reads, Resting, Lexer.NextToken;
    var m := ReadsSplit(source, 0, false, tokens, stop, k);
    ReadsWithin(source, 0, false, tokens[..k], m);
    if k == 0 {
      assert m == 0;
    } else {
      var t := tokens[k - 1];
      TerminatorEnds(Reader(source), b, t, a);
      var front := tokens[..k];
      var p := ReadsSplit(source, 0, false, front, m, k - 1);
      assert front[k - 1..] == [t];
      OneRead(source, p, k - 1 > 0, t, m);
    }
  }

  lemma AtRest(e: Env, tokens: seq<Token>, a: Config)
    requires Run(e, INITIAL, tokens) == Some(a) && (forall i :: 0 <= i < |tokens| ==> tokens[i].Valid())
    requires Resting(a) && !Unresolved(a) && !a.cont && a.annotation.NoAnnotation?
    ensures Idle(a.(skipEntry := false))
  {
    hide Run;
    InitialShape();
    RunShape(e, INITIAL, tokens, a);
    RunCleared(e, INITIAL, tokens, a);
  }

  lemma QuietRests(e: Env, c: Config, tokens: seq<Token>)
    ensures Quiet(e, c, tokens) ==> Resting(c)
  {}

  lemma NothingRun(e: Env, c: Config)
    ensures Run(e, c, []) == Some(c)
  {}

  /** The token that ended the last node, and what is known of the parser behind it. */
  lemma Landmarks(source: Bytes) returns (k: nat, a: Config, m: Config, stop: nat)
    requires Preserves(source) && EndsLine(source)
    ensures var tokens := TokensOf(source);
      && k <= |tokens| && Lexer.ScanFrom(source, 0, false) == Lexer.Scanned(tokens, stop)
      && (forall i :: 0 <= i < |tokens| ==> tokens[i].Valid() && !tokens[i].id.EOF?)
      && Run(Reader(source), INITIAL, tokens[..k]) == Some(a) && Quiet(Reader(source), a, tokens[k..])
      && Run(Reader(source), a, tokens[k..]) == Some(m) && Step(Reader(source), m, EOF_TOKEN) == Some(Read(source))
      && Reads(source, 0, false, tokens[..k], a.lastEnd)
      && (k > 0 ==> tokens[k - 1].id.Newline? || tokens[k - 1].id.Semicolon?)
    ensures m == a.(cont := m.cont) && Read(source).doc == a.doc && Read(source).lastEnd == a.lastEnd <= |source|
    ensures Idle(a.(skipEntry := false)) && Resting(a) && a.annotation.NoAnnotation? && (a.skipEntry <==> LeavesSlashdash(source))
    ensures k == 0 ==> a == INITIAL
  {
    hide Step, Lexer.ScanFrom, Run, Reader, Lossless.Plain, AnySlashdashAtTop, ClosesAll, Unresolved, Reads;
    var e, tokens := Reader(source), TokensOf(source);
    m, stop := SourceReads(source);
    PlainIsValid(tokens);
    var b;
    k, b, a := LastEnd(e, INITIAL, tokens, m);
    assert tokens[..k] + tokens[k..] == tokens;
    RunAppend(e, INITIAL, tokens[..k], tokens[k..]);
    ScanReads(source, 0, false);
    QuietRests(e, a, tokens[k..]);
    if k == 0 { NothingRun(e, INITIAL); }
    AtLastEnd(source, tokens, stop, k, b, a);
    QuietRun(e, a, tokens[k..], m, e, a, tokens[k..]);
    QuietResolves(e, a, tokens[k..], m);
    if Unresolved(m) { UnresolvedIsRefused(e, m); }
    AtRest(e, tokens[..k], a);
    EofRests(e, m);
  }

  // ----- a text written there -----

  /** The tokens in front of the text are read into the same nodes, and nothing else. */
  lemma FrontParses(e: Env, f: Env, tokens: seq<Token>, a: Config) returns (b: Config)
    requires e.decode == f.decode && Run(e, INITIAL, tokens) == Some(a) && a.phase.Between? && a.blocks == []
    requires forall i :: 0 <= i < |tokens| ==> !tokens[i].id.EOF?
    ensures Run(f, INITIAL, tokens) == Some(b) && b == a.(doc := b.doc) && EraseAll(b.doc) == EraseAll(a.doc)
  {
    hide Run, EraseAll, Sourceless.BareAll;
    Sourceless.SameTokensSameTrees(e, f, INITIAL, tokens);
    b := Run(f, INITIAL, tokens).value;
    assert |Sourceless.BareBlocks(b.blocks)| == |b.blocks|;
    Sourceless.BareAllErase(a.doc);
    Sourceless.BareAllErase(b.doc);
  }

  lemma ThreeParse(f: Env, x: seq<Token>, a: Config, y: seq<Token>, b: Config, z: seq<Token>, c: Config)
    requires Run(f, INITIAL, x) == Some(a) && Run(f, a, y) == Some(b) && Run(f, b, z) == Some(c)
    ensures ParseAll(f, x + y + z) == Step(f, c, EOF_TOKEN)
  {
    hide Run, Step;
    RunAppend(f, INITIAL, x, y);
    RunAppend(f, INITIAL, x + y, z);
    RunAppend(f, INITIAL, x + y + z, [EOF_TOKEN]);
    RunOne(f, c, EOF_TOKEN);
  }

  lemma {:induction false} EraseAllAppend(a: seq<Node>, b: seq<Node>)
    ensures EraseAll(a + b) == EraseAll(a) + EraseAll(b)
    decreases |b|
  {
    hide Erase;
    if b == [] {
      assert a + b == a;
    } else {
      var k := |b| - 1;
      assert a + b == (a + b[..k]) + [b[k]] && b == b[..k] + [b[k]];
      EraseAllSnoc(a + b[..k], b[k]);
      EraseAllSnoc(b[..k], b[k]);
      EraseAllAppend(a, b[..k]);
    }
  }

  /** If the text in their midst is read as these nodes, so are the tokens around it as they were. */
  lemma InsertedParses(source: Bytes, k: nat, a: Config, m: Config, f: Env, b: Config, inner: seq<Token>, x: Config, ns: seq<Node>, d: nat)
    requires Reread(source).Some? && k <= |TokensOf(source)| && f.decode == Reader(source).decode
    requires forall i :: 0 <= i < |TokensOf(source)| ==> TokensOf(source)[i].Valid()
    requires Run(Reader(source), a, TokensOf(source)[k..]) == Some(m) && Quiet(Reader(source), a, TokensOf(source)[k..])
    requires Step(Reader(source), m, EOF_TOKEN).Some? && a.annotation.NoAnnotation?
    requires Run(f, INITIAL, TokensOf(source)[..k]) == Some(b) && Alike(a, b) && EraseAll(b.doc) == EraseAll(a.doc)
    requires Run(f, b, inner) == Some(x) && Alike(b, x) && x.doc == b.doc + ns
    ensures var r := ParseAll(f, TokensOf(source)[..k] + inner + Moved(TokensOf(source)[k..], d));
      r.Some? && EraseAll(Visible(r.value)) == EraseAll(a.doc + ns)
  {
    hide Run, Step, EraseAll, Reader, Lexer.ScanFrom, Unresolved;
    var e, rest := Reader(source), TokensOf(source)[k..];
    var us := Moved(rest, d);
    MovedAt(rest, d);
    QuietRests(e, a, rest);
    QuietRun(e, a, rest, m, f, x, us);
    QuietResolves(e, a, rest, m);
    if Unresolved(m) { UnresolvedIsRefused(e, m); }
    var y := x.(cont := m.cont);
    ResolvedAlike(a, y, m);
    ThreeParse(f, TokensOf(source)[..k], b, inner, x, us, y);
    EofRests(f, y);
    AtMostOneMore(y.(cont := false));
    EraseAllAppend(b.doc, ns);
    EraseAllAppend(a.doc, ns);
  }

  lemma ResolvedAlike(a: Config, y: Config, m: Config)
    requires Resting(a) && y.phase == a.phase && y.blocks == a.blocks && y.annotation == a.annotation && y.typ == a.typ && y.skipNode == a.skipNode
    ensures Resting(y) && (Unresolved(y) <==> Unresolved(a))
  {}

  // ----- nodes made by a program -----

  /** A node without raw bytes, at any depth, as a program makes it. */
  predicate IsNew(n: Node)
    decreases n
  {
    && n.raw.None?
    && (forall k :: 0 <= k < |n.args| ==> n.args[k].raw.None?)
    && (forall k :: 0 <= k < |n.props| ==> n.props[k].value.raw.None?)
    && (forall k :: 0 <= k < |n.children| ==> IsNew(n.children[k]))
  }

  function Formatting(o: Options): Options { o.(preserve := false) }

  lemma {:induction false} NewArgs(o: Options, args: seq<Value>)
    requires forall k :: 0 <= k < |args| ==> args[k].raw.None?
    ensures ArgPieces(o, args) == ArgPieces(Formatting(o), args)
    decreases |args|
  {
    if args != [] { NewArgs(o, args[..|args| - 1]); }
  }

  lemma {:induction false} NewProps(o: Options, props: seq<Prop>)
    requires forall k :: 0 <= k < |props| ==> props[k].value.raw.None?
    ensures PropPieces(o, props) == PropPieces(Formatting(o), props)
    decreases |props|
  {
    if props != [] { NewProps(o, props[..|props| - 1]); }
  }

  lemma {:induction false} NewPieces(o: Options, depth: nat, n: Node)
    requires IsNew(n)
    ensures NodePieces(o, depth, n) == NodePieces(Formatting(o), depth, n)
    decreases n
  {
    hide ArgPieces, PropPieces, NodesPieces;
    NewArgs(o, n.args);
    NewProps(o, n.props);
    NewNodes(o, depth + 1, n.children);
  }

  lemma {:induction false} NewNodes(o: Options, depth: nat, nodes: seq<Node>)
    requires forall k :: 0 <= k < |nodes| ==> IsNew(nodes[k])
    ensures NodesPieces(o, depth, nodes) == NodesPieces(Formatting(o), depth, nodes)
    decreases nodes
  {
    hide NodePieces, IsNew;
    if nodes != [] {
      NewNodes(o, depth, nodes[..|nodes| - 1]);
      NewPieces(o, depth, nodes[|nodes| - 1]);
    }
  }

  /** The text of a node on its own. */
  function NodeText(o: Options, n: Node): Bytes { Render(NodePieces(Formatting(o), 0, n)) }

  lemma AppendedIs(o: Options, source: Bytes, n: Node)
    requires Preserves(source) && o.preserve && IsNew(n)
    ensures var end := Read(source).lastEnd;
      end <= |source| && AppendedText(o, source, n) == source[..end] + NodeText(o, n) + source[end..]
  {
    hide Run, Step, Reader, Lexer.ScanFrom, Render, NodePieces, DocumentOutput, AnySlashdashAtTop, ClosesAll, Lossless.Plain, ParsedDocument,
      Tiles;
    var m, stop := SourceReads(source);
    NewPieces(o, 0, n);
    ReaderIs(source);
    AppendedOutput(Reader(source), TokensOf(source), stop, Read(source), o, n);
  }

  /** What may be appended: a node made by a program, that the writer can print. */
  ghost predicate CanAppend(o: Options, n: Node) {
    o.preserve && o.spelling == SPELLED && Multiline.BlankFrom(o.indent, 0) && IsNew(n) && Printable(n)
  }

  lemma FirstPiece(o: Options, n: Node)
    requires CanPrint(o, n)
    ensures var ps := NodePieces(o, 0, n); ps != [] && (ps[0].id.ParensOpen? || IsIdentifier(ps[0].id))
  {
    hide ArgPieces, PropPieces, BlockPieces, TextPiece;
    TextPieceIds(n.name.content.chars);
    NodeShape(o, 0, n);
    var rest := ArgPieces(o, n.args) + (PropPieces(o, n.props) + (BlockPieces(o, 0, n) + [LINE_FEED]));
    assert NodePieces(o, 0, n) == HeadPieces(o, n) + rest;
    assert NodePieces(o, 0, n)[0] == HeadPieces(o, n)[0];
  }

  lemma TextPieceIds(s: Bytes)
    ensures IsIdentifier(TextPiece(s).id)
  {}

  lemma FirstByteOf(t: Bytes, i: nat, b: bool, id: TokenID, e: nat)
    requires i < |t| && Lexer.NextToken(t, i, b) == Lexer.Lexed(id, e, true) && !id.Newline?
    ensures t[i] != '\n' as int && !Utf8.Continues(t, i)
  {
    hide Lexer.BlankToken, Lexer.SlashToken, Lexer.HashToken, Lexer.ZeroToken, Lexer.DecimalNumber, Lexer.Identifier;
  }

  /** The text of a node, wherever it stands, is scanned into its pieces, and starts with neither a line feed nor the rest of a rune. */
  lemma NodeTextReads(o: Options, n: Node, t: Bytes, i: nat, b: bool) returns (tokens: seq<Token>)
    requires CanAppend(o, n) && StandsAt(NodeText(o, n), t, i)
    ensures Reads(t, i, b, tokens, i + |NodeText(o, n)|) && Matches(tokens, NodePieces(Formatting(o), 0, n))
    ensures NodeText(o, n) != [] && NodeText(o, n)[0] != '\n' as int && !Utf8.Continues(t, i)
  {
    hide Printable, NodePieces, Render, Lexer.NextToken, Multiline.BlankFrom, IsNew;
    var f := Formatting(o);
    var pieces := NodePieces(f, 0, n);
    FirstPiece(f, n);
    NodeLexes(f, 0, n, t, i);
    assert StandsAt(pieces[0].data, t, i);
    assert Lexer.NextToken(t, i, b) == Lexer.Lexed(pieces[0].id, i + |pieces[0].data|, true);
    FirstByteOf(t, i, b, pieces[0].id, i + |pieces[0].data|);
    LexesForward(t, i + |pieces[0].data|, pieces[1..], i + |NodeText(o, n)|);
    assert t[i] == NodeText(o, n)[0];
    tokens := PiecesRead(t, i, pieces, i + |NodeText(o, n)|, b);
  }

  // ----- when it is read back -----

  lemma SameDecoder(a: Bytes, b: Bytes)
    ensures Reader(a).decode == Reader(b).decode
  {}

  /** There is no node, and the appended text is written in front of a byte order mark. */
  predicate MarkFollows(source: Bytes)
    requires Reread(source).Some?
  {
    Read(source).lastEnd == 0 && Locality.MarkAt(source, 0)
  }

  /** Whatever the inserted tokens are read as is shown behind the nodes of the source. */
  lemma InsertedShows(source: Bytes, k: nat, a: Config, m: Config, stop: nat, text: Bytes, t: Bytes, inner: seq<Token>,
      b: Config, x: Config, ns: seq<Node>)
    requires Preserves(source) && k <= |TokensOf(source)|
    requires Lexer.ScanFrom(source, 0, false) == Lexer.Scanned(TokensOf(source), stop)
    requires forall i :: 0 <= i < |TokensOf(source)| ==> TokensOf(source)[i].Valid() && !TokensOf(source)[i].id.EOF?
    requires Run(Reader(source), a, TokensOf(source)[k..]) == Some(m) && Quiet(Reader(source), a, TokensOf(source)[k..])
    requires Step(Reader(source), m, EOF_TOKEN).Some? && a.annotation.NoAnnotation? && a.lastEnd <= |source|
    requires Reads(source, 0, false, TokensOf(source)[..k], a.lastEnd)
    requires k > 0 ==> TokensOf(source)[k - 1].id.Newline? || TokensOf(source)[k - 1].id.Semicolon?
    requires t == source[..a.lastEnd] + text + source[a.lastEnd..] && text != [] && text[0] != '\n' as int
    requires Reads(t, a.lastEnd, k > 0, inner, a.lastEnd + |text|) && (k == 0 ==> !Locality.MarkAt(source, 0))
    requires Run(Reader(t), INITIAL, TokensOf(source)[..k]) == Some(b) && Alike(a, b) && EraseAll(b.doc) == EraseAll(a.doc)
    requires Run(Reader(t), b, inner) == Some(x) && Alike(b, x) && x.doc == b.doc + ns
    ensures Shows(t, EraseAll(a.doc + ns))
  {
    hide Run, Step, EraseAll, Visible, Reader, Lexer.ScanFrom, Reads, Locality.MarkAt, AnySlashdashAtTop, ClosesAll, Resting, Quiet;
    InsertedScan(source, TokensOf(source), stop, k, a.lastEnd, text, t, inner);
    SameDecoder(source, t);
    InsertedParses(source, k, a, m, Reader(t), b, inner, x, ns, |text|);
    ReaderIs(t);
  }

  lemma IdleAlike(b: Config, x: Config, ms: seq<Node>)
    requires Idle(b) && b.blocks == [] && Grown(b, x, ms)
    ensures Alike(b, x) && x.doc == b.doc + ms
  {}

  /**
   * Main result: behind a source whose last node was ended by a line break or a semicolon, or that has no node, every
   * printable node is read back as it was appended, if no slashdash is left over and no byte order mark follows.
   */
  lemma AppendedReadsBack(o: Options, source: Bytes, n: Node)
    requires Preserves(source) && CanAppend(o, n)
    requires EndsLine(source) && !LeavesSlashdash(source) && !MarkFollows(source)
    ensures Shows(AppendedText(o, source, n), EraseAll(Read(source).doc + [n]))
  {
    hide Run, Step, EraseAll, Visible, Reader, Lexer.ScanFrom, Reads, AnySlashdashAtTop, ClosesAll, Quiet, Printable, NodePieces,
      Render, Grown, Idle, Erase, DocumentOutput, IsNew, Multiline.BlankFrom, Readable, Reread;
    var k, a, m, stop := Landmarks(source);
    var t := AppendedText(o, source, n);
    AppendedIs(o, source, n);
    var text := NodeText(o, n);
    Standing(source, a.lastEnd, text, t);
    var inner := NodeTextReads(o, n, t, a.lastEnd, k > 0);
    SameDecoder(source, t);
    var b := FrontParses(Reader(source), Reader(t), TokensOf(source)[..k], a);
    StillIdle(a, b);
    PrintableIsReadable(t, Formatting(o), n);
    var x, m1 := NodeReads(Reader(t), Formatting(o), 0, b, n, inner);
    IdleAlike(b, x, [m1]);
    InsertedShows(source, k, a, m, stop, text, t, inner, b, x, [m1]);
    EraseAllSnoc(a.doc, m1);
    EraseAllSnoc(a.doc, n);
  }

  lemma Standing(s: Bytes, e: nat, text: Bytes, t: Bytes)
    requires e <= |s| && t == s[..e] + text + s[e..]
    ensures StandsAt(text, t, e)
  {}

  lemma StillIdle(a: Config, b: Config)
    requires Idle(a.(skipEntry := false)) && !a.skipEntry && b == a.(doc := b.doc)
    ensures Idle(b) && Alike(a, b)
  {}
}
