// A node appended behind a last line that no terminator ends is never read back as it was appended.
module Joining {
  import opened Basics
  import opened Tokens
  import opened Documents
  import opened Utf8
  import opened Machine
  import opened Generator
  import opened Completeness
  import opened Preserving
  import opened Printing
  import opened Spellings
  import opened RoundTrip
  import opened Reformatting
  import opened TopLevel
  import opened Rescanning
  import opened Appending
  import Effects
  import Lexer
  import Locality
  import Lossless
  import Multiline
  import Slashdash
  import Sourceless
  import Strings

  // ----- where a terminator can be read -----

  /** A rune that starts a terminator. */
  predicate Terminates(p: Lexer.Peek) { p.Rune? && (IsNewline(p.c) || p.c == ';' as int) }

  predicate NoBreak(w: Bytes) { forall x: nat :: x < |w| ==> !Terminates(Lexer.PeekAt(w, x)) }

  /** No semicolon, and no line break but the writer's own line feeds. */
  predicate Unbroken(pieces: seq<Piece>) { forall i :: 0 <= i < |pieces| ==> pieces[i] == LINE_FEED || NoBreak(pieces[i].data) }

  lemma BreakWithin(w: Bytes, t: Bytes, i: nat, x: nat)
    requires StandsAt(w, t, i) && NoBreak(w) && i <= x < i + |w| && !Continues(t, i + |w|)
    ensures !Terminates(Lexer.PeekAt(t, x))
  {
    if Terminates(Lexer.PeekAt(t, x)) {
      var n := Lexer.PeekAt(t, x).size;
      Trailing(t, x);
      assert x + n <= i + |w|;
      SliceOfSlice(t, i, i + |w|, x - i, x - i + n);
      assert !Terminates(Lexer.PeekAt(w, x - i));
      DecodeLocal(t, x, w, x - i);
    }
  }

  lemma LexedStarts(t: Bytes, i: nat, b: bool)
    requires i <= |t| && Lexer.NextToken(t, i, b).Lexed?
    ensures !Continues(t, i)
  {
    hide Lexer.BlankToken, Lexer.SlashToken, Lexer.HashToken, Lexer.ZeroToken, Lexer.DecimalNumber, Lexer.Identifier;
  }

  lemma LexesStarts(t: Bytes, i: nat, pieces: seq<Piece>)
    requires Lexes(t, i, pieces, |t|)
    ensures !Continues(t, i)
  {
    hide Lexer.NextToken;
    if pieces != [] {
      assert Lexer.NextToken(t, i, true) == Lexer.Lexed(pieces[0].id, i + |pieces[0].data|, true);
      LexedStarts(t, i, true);
    }
  }

  /** Every break in the text is one of its line feeds. */
  lemma {:induction false} BreakIsLineFeed(t: Bytes, i: nat, pieces: seq<Piece>, x: nat) returns (j: nat)
    requires Lexes(t, i, pieces, |t|) && Unbroken(pieces) && i <= x < |t| && Terminates(Lexer.PeekAt(t, x))
    ensures j < |pieces| && pieces[j] == LINE_FEED && StandsAt(LINE_FEED.data, t, x) && Lexes(t, x + 1, pieces[j + 1..], |t|)
    decreases |pieces|
  {
    hide Lexer.NextToken, Terminates, NoBreak, Lexer.PeekAt;
    var p := pieces[0];
    var m := i + |p.data|;
    LexesStarts(t, m, pieces[1..]);
    if x < m {
      if p != LINE_FEED { BreakWithin(p.data, t, i, x); }
      j := 0;
    } else {
      assert forall k :: 0 <= k < |pieces[1..]| ==> pieces[1..][k] == pieces[k + 1];
      j := BreakIsLineFeed(t, m, pieces[1..], x);
      assert pieces[1..][j + 1..] == pieces[j + 2..];
      j := j + 1;
    }
  }

  // ----- how deep the line feeds of a printed node are -----

  function PieceBraces(pieces: seq<Piece>): int {
    if pieces == [] then 0 else (if pieces[0].id.BraceOpen? then 1 else if pieces[0].id.BraceClose? then -1 else 0) + PieceBraces(pieces[1..])
  }

  lemma {:induction false} PieceBracesAppend(a: seq<Piece>, b: seq<Piece>)
    ensures PieceBraces(a + b) == PieceBraces(a) + PieceBraces(b)
  {
    if a == [] {
      assert a + b == b;
    } else {
      assert (a + b)[1..] == a[1..] + b;
      PieceBracesAppend(a[1..], b);
    }
  }

  lemma {:induction false} MatchingBraces(tokens: seq<Token>, pieces: seq<Piece>)
    requires Matches(tokens, pieces)
    ensures Braces(tokens) == PieceBraces(pieces)
  {
    if tokens != [] {
      assert tokens[0].id == pieces[0].id;
      assert forall i :: 0 <= i < |tokens[1..]| ==> tokens[1..][i] == tokens[i + 1] && pieces[1..][i] == pieces[i + 1];
      MatchingBraces(tokens[1..], pieces[1..]);
    }
  }

  /** Neither a brace nor a line feed. */
  predicate Inline(pieces: seq<Piece>) {
    forall i :: 0 <= i < |pieces| ==> !pieces[i].id.BraceOpen? && !pieces[i].id.BraceClose? && !pieces[i].id.Newline?
  }

  lemma {:induction false} InlineBraces(pieces: seq<Piece>)
    requires Inline(pieces)
    ensures PieceBraces(pieces) == 0
  {
    if pieces != [] {
      assert forall i :: 0 <= i < |pieces[1..]| ==> pieces[1..][i] == pieces[i + 1];
      InlineBraces(pieces[1..]);
    }
  }

  lemma ValueInline(o: Options, v: Value)
    requires o.spelling == SPELLED && !o.preserve && ValueReadsBack(v)
    ensures Inline(ValuePieces(o, v))
  {
    hide Scans, StartsWord, QuotedReadsBack;
    TypeInline(o, ShownType(o, v));
  }

  lemma TypeInline(o: Options, typ: Bytes)
    requires o.spelling == SPELLED && TypeReadsBack(typ)
    ensures Inline(TypePieces(o, typ))
  {
    hide Scans;
  }

  lemma {:induction false} ArgsInline(o: Options, args: seq<Value>)
    requires o.spelling == SPELLED && !o.preserve && forall k :: 0 <= k < |args| ==> ValueReadsBack(args[k])
    ensures Inline(ArgPieces(o, args))
    decreases |args|
  {
    hide ValueReadsBack, ValuePieces;
    if args != [] {
      ArgsInline(o, args[..|args| - 1]);
      ValueInline(o, args[|args| - 1]);
    }
  }

  lemma {:induction false} PropsInline(o: Options, props: seq<Prop>)
    requires o.spelling == SPELLED && !o.preserve && forall k :: 0 <= k < |props| ==> ValueReadsBack(props[k].value)
    ensures Inline(PropPieces(o, props))
    decreases |props|
  {
    hide ValueReadsBack, ValuePieces;
    if props != [] {
      PropsInline(o, props[..|props| - 1]);
      ValueInline(o, props[|props| - 1].value);
      TextPieceIds(props[|props| - 1].key);
    }
  }

  /** The line of a node, up to its block. */
  function Line(o: Options, depth: nat, n: Node): seq<Piece> {
    Indentation(o, depth) + HeadPieces(o, n) + ArgPieces(o, n.args) + PropPieces(o, n.props)
  }

  lemma LineInline(o: Options, depth: nat, n: Node)
    requires CanPrint(o, n)
    ensures Inline(Line(o, depth, n))
  {
    hide ValueReadsBack, ArgPieces, PropPieces, TypePieces, Multiline.BlankFrom;
    EntriesOk(o, n);
    ArgsInline(o, n.args);
    PropsInline(o, n.props);
    TypeInline(o, n.typ);
    TypeInline(o, []);
    TextPieceIds(n.name.content.chars);
  }

  /** Behind a line feed there are at least as many closing braces as opening ones; inside the node there are more. */
  predicate Closing(pieces: seq<Piece>, strict: bool) {
    PieceBraces(pieces) == 0 && forall i {:trigger pieces[i..]} :: 0 < i <= |pieces| && pieces[i - 1].id.Newline? ==>
      PieceBraces(pieces[i..]) <= (if strict && i < |pieces| then -1 else 0)
  }

  lemma ClosingAppend(a: seq<Piece>, b: seq<Piece>)
    requires Closing(a, false) && Closing(b, false)
    ensures Closing(a + b, false)
  {
    PieceBracesAppend(a, b);
    forall i {:trigger (a + b)[i..]} | 0 < i <= |a + b| && (a + b)[i - 1].id.Newline? ensures PieceBraces((a + b)[i..]) <= 0 {
      if i <= |a| {
        assert (a + b)[i..] == a[i..] + b;
        PieceBracesAppend(a[i..], b);
      } else {
        assert (a + b)[i..] == b[i - |a|..];
      }
    }
  }

  /** No line feed but possibly the last piece. */
  predicate OneLine(pieces: seq<Piece>) { forall i :: 0 <= i < |pieces| - 1 ==> !pieces[i].id.Newline? }

  lemma OneLineClosing(a: seq<Piece>)
    requires Inline(a)
    ensures Closing(a + [LINE_FEED], true)
  {
    var p := a + [LINE_FEED];
    MarkBraces();
    PieceBracesAppend(a, [LINE_FEED]);
    InlineBraces(a);
    assert OneLine(p);
    forall i {:trigger p[i..]} | 0 < i <= |p| && p[i - 1].id.Newline? ensures i == |p| && PieceBraces(p[i..]) == 0 {}
  }

  lemma FeedInFirst(a: seq<Piece>, b: seq<Piece>, i: nat)
    requires OneLine(a) && 0 < i <= |a| && (a + b)[i - 1].id.Newline?
    ensures (a + b)[i..] == b
  {
    assert (a + b)[i - 1] == a[i - 1];
  }

  lemma FeedInMiddle(a: seq<Piece>, b: seq<Piece>, c: seq<Piece>, i: nat)
    requires |a| < i <= |a| + |b| && (a + (b + c))[i - 1].id.Newline?
    ensures (a + (b + c))[i..] == b[i - |a|..] + c && b[i - |a| - 1].id.Newline?
  {
    assert (a + (b + c))[i - 1] == b[i - |a| - 1];
  }

  lemma FeedInLast(a: seq<Piece>, b: seq<Piece>, c: seq<Piece>, i: nat)
    requires OneLine(c) && |a| + |b| < i <= |a + (b + c)| && (a + (b + c))[i - 1].id.Newline?
    ensures i == |a + (b + c)|
  {
    assert (a + (b + c))[i - 1] == c[i - |a| - |b| - 1];
  }

  /** Behind a line feed of a line that opens a block, the nodes in it, or the line that shuts it. */
  lemma BlockSuffix(a: seq<Piece>, kids: seq<Piece>, c: seq<Piece>, i: nat)
    requires OneLine(a) && OneLine(c) && PieceBraces(c) == -1 && Closing(kids, false)
    requires 0 < i <= |a + (kids + c)| && (a + (kids + c))[i - 1].id.Newline?
    ensures PieceBraces((a + (kids + c))[i..]) <= if i < |a + (kids + c)| then -1 else 0
  {
    hide PieceBraces, OneLine;
    if i <= |a| {
      FeedInFirst(a, kids + c, i);
      PieceBracesAppend(kids, c);
    } else if i <= |a| + |kids| {
      FeedInMiddle(a, kids, c, i);
      PieceBracesAppend(kids[i - |a|..], c);
    } else {
      FeedInLast(a, kids, c, i);
      NoPieces(a + (kids + c));
    }
  }

  lemma NoPieces(pieces: seq<Piece>)
    ensures PieceBraces(pieces[|pieces|..]) == 0
  {}

  lemma BlockClosing(a: seq<Piece>, kids: seq<Piece>, c: seq<Piece>)
    requires OneLine(a) && OneLine(c) && PieceBraces(a) == 1 && PieceBraces(c) == -1 && Closing(kids, false)
    ensures Closing(a + (kids + c), true)
  {
    hide PieceBraces, OneLine;
    var p := a + (kids + c);
    PieceBracesAppend(a, kids + c);
    PieceBracesAppend(kids, c);
    forall i {:trigger p[i..]} | 0 < i <= |p| && p[i - 1].id.Newline? ensures PieceBraces(p[i..]) <= if i < |p| then -1 else 0 {
      BlockSuffix(a, kids, c, i);
    }
  }

  lemma MarkBraces()
    ensures PieceBraces([OPEN, LINE_FEED]) == 1 && PieceBraces([SHUT, LINE_FEED]) == -1 && PieceBraces([LINE_FEED]) == 0
  {
    assert [OPEN, LINE_FEED][1..] == [LINE_FEED] && [SHUT, LINE_FEED][1..] == [LINE_FEED] && [LINE_FEED][1..] == [];
    assert PieceBraces([LINE_FEED]) == 0;
  }

  /** The line in front of a block, and the one behind it. */
  lemma BlockLines(a: seq<Piece>, indent: seq<Piece>)
    requires Inline(a) && Inline(indent)
    ensures OneLine(a + [OPEN, LINE_FEED]) && PieceBraces(a + [OPEN, LINE_FEED]) == 1
    ensures OneLine(indent + [SHUT, LINE_FEED]) && PieceBraces(indent + [SHUT, LINE_FEED]) == -1
  {
    MarkBraces();
    InlineBraces(a);
    InlineBraces(indent);
    PieceBracesAppend(a, [OPEN, LINE_FEED]);
    PieceBracesAppend(indent, [SHUT, LINE_FEED]);
  }

  lemma IndentInline(o: Options, depth: nat)
    ensures Inline(Indentation(o, depth))
  {}

  lemma NodeClosing(o: Options, depth: nat, n: Node)
    requires CanPrint(o, n)
    ensures Closing(NodePieces(o, depth, n), true)
    decreases n, 1
  {
    hide Indentation, HeadPieces, ArgPieces, PropPieces, NodesPieces, Printable, Closing, PieceBraces, Multiline.BlankFrom;
    LineInline(o, depth, n);
    var a := Line(o, depth, n);
    if n.children == [] {
      assert NodePieces(o, depth, n) == a + [LINE_FEED];
      OneLineClosing(a);
    } else {
      var kids, indent := NodesPieces(o, depth + 1, n.children), Indentation(o, depth);
      var head, tail := (a + [SPACE]) + [OPEN, LINE_FEED], indent + [SHUT, LINE_FEED];
      assert NodePieces(o, depth, n) == head + (kids + tail);
      ChildrenCanPrint(o, n);
      NodesClosing(o, depth + 1, n.children);
      IndentInline(o, depth);
      BlockLines(a + [SPACE], indent);
      BlockClosing(head, kids, tail);
    }
  }

  lemma NodesClosing(o: Options, depth: nat, nodes: seq<Node>)
    requires forall k :: 0 <= k < |nodes| ==> CanPrint(o, nodes[k])
    ensures Closing(NodesPieces(o, depth, nodes), false)
    decreases nodes, 0
  {
    hide NodePieces, CanPrint;
    if nodes != [] {
      var k := |nodes| - 1;
      NodesClosing(o, depth, nodes[..k]);
      NodeClosing(o, depth, nodes[k]);
      ClosingAppend(NodesPieces(o, depth, nodes[..k]), NodePieces(o, depth, nodes[k]));
    }
  }

  // ----- what is read behind the unfinished line -----

  lemma TerminatorBreaks(t: Bytes, i: nat, x: Token, rest: seq<Token>, b: bool, e: nat)
    requires Reads(t, i, b, [x] + rest, e) && IsTerminator(x.id) && !x.id.EOF?
    ensures i < |t| && Terminates(Lexer.PeekAt(t, i))
  {
    hide Lexer.NextToken;
    TerminatorRune(t, i, b);
  }

  lemma BreakIsTerminator(s: Bytes, i: nat, b: bool)
    requires i <= |s| && Terminates(Lexer.PeekAt(s, i))
    ensures var r := Lexer.NextToken(s, i, b); r.Lexed? && (r.id.Newline? || r.id.Semicolon?)
  {
    hide DecodeAt;
  }

  /** If behind the line feed at x only pieces of the node follow, what is read there closes more than it opens. */
  lemma RestCloses(o: Options, n: Node, t: Bytes, x: nat, j: nat, tokens: seq<Token>, stop: nat)
    requires CanPrint(o, n) && var ps := NodePieces(o, 0, n); j < |ps| && ps[j] == LINE_FEED && Lexes(t, x, ps[j + 1..], |t|)
    requires x <= |t| && Reads(t, x, true, tokens, stop) && stop <= |t| && Lexer.NextToken(t, stop, true).LexEof?
    ensures tokens == [] || Braces(tokens) < 0
  {
    hide Lexer.NextToken, NodePieces, Reads, Lexes, PieceBraces, CanPrint;
    var ps := NodePieces(o, 0, n);
    NodeClosing(o, 0, n);
    assert ps[j + 1 - 1].id.Newline?;
    assert j + 1 < |ps| ==> PieceBraces(ps[j + 1..]) <= -1;
    var us := PiecesRead(t, x, ps[j + 1..], |t|, true);
    ReadsDetermined(t, x, true, us, |t|, tokens, stop);
    NothingBehind(t, tokens[|us|..], stop);
    assert tokens == us;
    MatchingBraces(us, ps[j + 1..]);
  }

  lemma NothingBehind(t: Bytes, tokens: seq<Token>, stop: nat)
    requires Reads(t, |t|, true, tokens, stop)
    ensures tokens == []
  {
    hide Lexer.NextToken;
  }

  lemma EofBraces(tokens: seq<Token>)
    ensures Braces(tokens + [EOF_TOKEN]) == Braces(tokens)
  {
    BracesAppend(tokens, [EOF_TOKEN]);
    assert [EOF_TOKEN][1..] == [];
    assert Braces([]) == 0;
  }

  /** Reading from within the text of the appended node shows at most one node more. */
  lemma {:induction false} TextShowsOne(o: Options, n: Node, t: Bytes, start: nat, f: Env, c: Config, i: nat, tokens: seq<Token>, stop: nat, d: Config)
    requires CanPrint(o, n) && Lexes(t, start, NodePieces(o, 0, n), |t|) && Unbroken(NodePieces(o, 0, n))
    requires start <= i <= |t| && Reads(t, i, true, tokens, stop) && stop <= |t| && Lexer.NextToken(t, stop, true).LexEof?
    requires Run(f, c, tokens + [EOF_TOKEN]) == Some(d)
    requires forall k :: 0 <= k < |tokens| ==> !tokens[k].id.EOF?
    ensures |Visible(d)| <= |c.doc| + 1
    decreases |tokens|
  {
    hide Lexer.NextToken, NodePieces, Lexes, Unbroken, CanPrint, Step, Visible, Terminates, Braces;
    if tokens == [] {
      LineShowsOne(f, c, tokens, d);
    } else {
      var x, rest := tokens[0], tokens[1..];
      assert tokens == [x] + rest && tokens + [EOF_TOKEN] == [x] + (rest + [EOF_TOKEN]);
      assert ([x] + (rest + [EOF_TOKEN]))[1..] == rest + [EOF_TOKEN];
      var m := Step(f, c, x).value;
      StepAddsOne(f, c, x, m);
      if |m.doc| == |c.doc| {
        TextShowsOne(o, n, t, start, f, m, i + |x.data|, rest, stop, d);
      } else {
        TerminatorBreaks(t, i, x, rest, true, stop);
        var j := BreakIsLineFeed(t, start, NodePieces(o, 0, n), i);
        LineFeedIsOne(t, i, x, rest, stop);
        RestCloses(o, n, t, i + 1, j, rest, stop);
        RunBraces(f, m, rest + [EOF_TOKEN], d);
        EofBraces(rest);
        assert rest == [];
        EofAlone(f, m, d);
      }
    }
  }

  lemma LineFeedIsOne(t: Bytes, i: nat, x: Token, rest: seq<Token>, stop: nat)
    requires Reads(t, i, true, [x] + rest, stop) && StandsAt(LINE_FEED.data, t, i)
    ensures Reads(t, i + 1, true, rest, stop)
  {
    hide Lexer.NextToken;
    MarkScans(LINE_FEED, t, i);
    assert ([x] + rest)[1..] == rest;
    assert Lexer.NextToken(t, i, true) == Lexer.Lexed(LINE_FEED.id, i + |LINE_FEED.data|, true);
  }

  lemma EofAlone(f: Env, m: Config, d: Config)
    requires Run(f, m, [] + [EOF_TOKEN]) == Some(d) && Resting(m)
    ensures |Visible(d)| == |m.doc|
  {
    hide Step, Resting;
    assert [] + [EOF_TOKEN] == [EOF_TOKEN];
    RunOne(f, m, EOF_TOKEN);
    RestingAtEof(f, m, d);
    AtMostOneMore(d);
  }

  // ----- the unfinished line -----

  lemma EofAddsOne(e: Env, tokens: seq<Token>, m: Config, d: Config)
    requires ParseAll(e, tokens) == Some(d) && ClosesAll(e, tokens) && !AnySlashdashAtTop(e, INITIAL, tokens + [EOF_TOKEN])
    requires Step(e, m, EOF_TOKEN) == Some(d) && m.phase.Inside? && m.blocks == []
    ensures |d.doc| == |m.doc| + 1 && d.lastEnd == |e.source|
  {
    hide Step, ClosesAll, AnySlashdashAtTop;
    CompleteExactly(e, tokens, d);
    IgnoredIsSlashdashed(e, tokens, d);
    var mid, eff := Effects.StepEffect(e, m, EOF_TOKEN, d);
    assert Effects.SkeletonOf(m.phase) == Effects.SkeletonOf(mid.phase);
    match eff
    case Ended => assert d.segments[|d.segments| - 1].ignored == mid.phase.open.ignored;
    case Local =>
    case Started =>
    case Opened =>
    case Closed =>
    case EndedAndClosed =>
  }

  /**
   * Where the scanner may begin to read something else when text is put behind the source: at its last token, behind it if
   * that is a terminator, or at an ending that strands.
   */
  lemma UnfinishedLine(source: Bytes) returns (k: nat, q: nat, c: Config)
    requires Preserves(source) && !EndsLine(source)
    ensures var tokens := TokensOf(source);
      && k <= |tokens| && (forall i :: 0 <= i < |tokens| ==> tokens[i].Valid() && !tokens[i].id.EOF?)
      && Reads(source, 0, false, tokens[..k], q) && q <= |source| && Run(Reader(source), INITIAL, tokens[..k]) == Some(c)
      && |Read(source).doc| >= |c.doc| + 1 && Read(source).lastEnd == |source|
      && (q == |source| ==> k > 0 && (tokens[k - 1].id.Newline? || tokens[k - 1].id.Semicolon?))
    ensures q < |source| ==> EndsThere(source, q, k > 0)
  {
    hide Step, Lexer.ScanFrom, Run, Reader, Lossless.Plain, AnySlashdashAtTop, ClosesAll, Reads, Lexer.NextToken;
    var e, tokens := Reader(source), TokensOf(source);
    var m, stop := SourceReads(source);
    PlainIsValid(tokens);
    ReaderIs(source);
    EofAddsOne(e, tokens, m, Read(source));
    ScanReads(source, 0, false);
    NothingRun(e, INITIAL);
    k, q, c := |tokens|, stop, m;
    assert tokens[..|tokens|] == tokens;
    if stop == |source| {
      var last := tokens[|tokens| - 1];
      if !IsTerminator(last.id) {
        k := |tokens| - 1;
        q := ReadsSplit(source, 0, false, tokens, stop, k);
        ReadsWithin(source, 0, false, tokens[..k], q);
        assert tokens[k..] == [last] && tokens[..k] + [last] == tokens;
        OneRead(source, q, k > 0, last, stop);
        RunAppend(e, INITIAL, tokens[..k], [last]);
        c := Run(e, INITIAL, tokens[..k]).value;
        RunKeepsNodes(e, c, [last], m);
      }
    }
  }

  /** At i the scanner reads up to the end of the source, or takes what is left for its end. */
  predicate EndsThere(source: Bytes, i: nat, b: bool)
    requires i <= |source|
  {
    var r := Lexer.NextToken(source, i, b);
    r.LexEof? || (r.Lexed? && r.end == |source| && !IsTerminator(r.id))
  }

  /** What is read there in front of more text is no terminator, and is not shorter. */
  lemma FirstGrows(source: Bytes, t: Bytes, i: nat, b: bool)
    requires i < |source| < |t| && t[..|source|] == source && !Continues(t, |source|) && EndsThere(source, i, b)
    ensures var r := Lexer.NextToken(t, i, b); r.Lexed? ==> r.end >= |source| && !r.id.Newline? && !r.id.Semicolon?
  {
    hide Lexer.NextToken, Locality.View, Terminates;
    var r := Lexer.NextToken(t, i, b);
    assert source[..|source|] == source;
    if r.Lexed? {
      if r.end < |source| {
        Locality.PrefixView(t, source, |source|, i, r.end);
        Locality.TokenView(t, i, b, r.id, r.end, r.whole, source, 0, b);
      }
      if r.id.Newline? || r.id.Semicolon? {
        TerminatorRune(t, i, b);
        Locality.PrefixView(t, source, |source|, i, i);
        Locality.PeekView(t, i, i, source, 0);
        assert Terminates(Lexer.PeekAt(t, i)) by { TerminatesIs(Lexer.PeekAt(t, i)); }
        BreakIsTerminator(source, i, b);
      }
    }
  }

  lemma TerminatesIs(p: Lexer.Peek)
    ensures p.Rune? && (IsNewline(p.c) || p.c == ';' as int) ==> Terminates(p)
  {}

  /** The tokens in front are still read. */
  lemma FrontReads(source: Bytes, tokens: seq<Token>, q: nat, t: Bytes)
    requires Reads(source, 0, false, tokens, q) && q <= |source| < |t| && t[..|source|] == source
    requires !Continues(t, |source|) && t[|source|] != '\n' as int
    requires q == |source| ==> tokens != [] && (tokens[|tokens| - 1].id.Newline? || tokens[|tokens| - 1].id.Semicolon?)
    ensures Reads(t, 0, false, tokens, q)
  {
    hide Lexer.NextToken, Locality.View, Reads;
    assert source[..|source|] == source;
    if q == |source| {
      FrontStays(source, tokens, q, t);
    } else {
      Locality.PrefixView(source, t, |source|, 0, q);
      ReadsView(source, 0, false, tokens, q, t, 0, false);
      MovedNowhere(tokens);
    }
  }

  /** Behind an unfinished line, reading the appended text shows no node more than there were. */
  lemma LineShowsNoMore(o: Options, n: Node, source: Bytes, t: Bytes, f: Env, c: Config, q: nat, b: bool, tokens: seq<Token>, stop: nat, d: Config)
    requires CanPrint(o, n) && Lexes(t, |source|, NodePieces(o, 0, n), |t|) && Unbroken(NodePieces(o, 0, n))
    requires q <= |source| < |t| && t[..|source|] == source && !Continues(t, |source|)
    requires Reads(t, q, b, tokens, stop) && stop <= |t| && Lexer.NextToken(t, stop, b || tokens != []).LexEof?
    requires if q == |source| then b else EndsThere(source, q, b)
    requires Run(f, c, tokens + [EOF_TOKEN]) == Some(d) && (forall k :: 0 <= k < |tokens| ==> !tokens[k].id.EOF?)
    ensures |Visible(d)| <= |c.doc| + 1
  {
    hide Lexer.NextToken, NodePieces, Lexes, Unbroken, CanPrint, Step, Visible, EndsThere;
    if q == |source| {
      TextShowsOne(o, n, t, |source|, f, c, q, tokens, stop, d);
    } else if tokens == [] {
      LineShowsOne(f, c, tokens, d);
    } else {
      var x, rest := tokens[0], tokens[1..];
      assert tokens + [EOF_TOKEN] == [x] + (rest + [EOF_TOKEN]);
      assert ([x] + (rest + [EOF_TOKEN]))[1..] == rest + [EOF_TOKEN];
      FirstGrows(source, t, q, b);
      var m := Step(f, c, x).value;
      StepAddsOne(f, c, x, m);
      ReadsWithin(t, q + |x.data|, true, rest, stop);
      TextShowsOne(o, n, t, |source|, f, m, q + |x.data|, rest, stop, d);
    }
  }

  lemma AppendedAtEnd(o: Options, source: Bytes, n: Node)
    requires Preserves(source) && CanAppend(o, n) && Read(source).lastEnd == |source|
    ensures var t := AppendedText(o, source, n);
      t == source + NodeText(o, n) && |source| < |t| && t[..|source|] == source && StandsAt(NodeText(o, n), t, |source|)
      && |source| + |NodeText(o, n)| == |t| && !Continues(t, |source|) && t[|source|] != '\n' as int
  {
    hide AppendedText, NodeText, Printable, IsNew, Reread, Lexer.NextToken, Multiline.BlankFrom, Reads;
    AppendedIs(o, source, n);
    var t := AppendedText(o, source, n);
    assert source[..|source|] == source && source[|source|..] == [];
    assert t == source + NodeText(o, n);
    var tokens := NodeTextReads(o, n, t, |source|, true);
  }

  lemma SameCount(e: Env, f: Env, tokens: seq<Token>, c: Config) returns (b: Config)
    requires e.decode == f.decode && Run(e, INITIAL, tokens) == Some(c) && (forall i :: 0 <= i < |tokens| ==> !tokens[i].id.EOF?)
    ensures Run(f, INITIAL, tokens) == Some(b) && |b.doc| == |c.doc|
  {
    hide Run, EraseAll, Sourceless.BareAll;
    Sourceless.SameTokensSameTrees(e, f, INITIAL, tokens);
    b := Run(f, INITIAL, tokens).value;
    Sourceless.BareAllErase(b.doc);
    Sourceless.BareAllErase(c.doc);
    ErasedCount(b.doc);
    ErasedCount(c.doc);
  }

  /** What a whole scan reads, once its first tokens are known. */
  lemma ScanContinues(t: Bytes, front: seq<Token>, q: nat) returns (rest: seq<Token>, stop: nat)
    requires Reads(t, 0, false, front, q) && Lexer.ScanFrom(t, 0, false).Scanned?
    ensures Lexer.ScanFrom(t, 0, false) == Lexer.Scanned(front + rest, stop) && stop <= |t| && Reads(t, q, front != [], rest, stop)
    ensures Lexer.NextToken(t, stop, front != [] || rest != []).LexEof? && (forall k :: 0 <= k < |rest| ==> !rest[k].id.EOF?)
  {
    hide Lexer.NextToken, Lexer.ScanFrom, Reads, Lossless.Plain, Tiles, Lossless.Strands;
    var us := Lexer.ScanFrom(t, 0, false).tokens;
    stop := Lexer.ScanFrom(t, 0, false).stop;
    ScanReads(t, 0, false);
    ReadsDetermined(t, 0, false, front, q, us, stop);
    rest := us[|front|..];
    assert front + rest == us;
    Lossless.ScanTiles(t, 0, false);
    PlainIsValid(us);
    assert forall k :: 0 <= k < |rest| ==> rest[k] == us[k + |front|];
  }

  /**
   * Main result: behind a source whose last node the end of the input has ended, no node is read back as it was appended,
   * whatever it is, if there is no semicolon in its text and no line break within its names, texts and types.
   */
  lemma AppendedJoins(o: Options, source: Bytes, n: Node)
    requires Preserves(source) && CanAppend(o, n) && !EndsLine(source) && Unbroken(NodePieces(Formatting(o), 0, n))
    ensures !Shows(AppendedText(o, source, n), EraseAll(Read(source).doc + [n]))
  {
    hide AppendedText, Reads, Lexer.ScanFrom, Lexer.NextToken, Run, Step, EraseAll, Visible, Reader, Unbroken, NodePieces, Printable, IsNew, Lexes,
      EndsThere, Multiline.BlankFrom, AnySlashdashAtTop, ClosesAll, Render;
    var t := AppendedText(o, source, n);
    if Reread(t).Some? {
      var d := Reread(t).value;
      var k, q, c := UnfinishedLine(source);
      var front := TokensOf(source)[..k];
      AppendedAtEnd(o, source, n);
      NodeLexes(Formatting(o), 0, n, t, |source|);
      FrontReads(source, front, q, t);
      var rest, stop := ScanContinues(t, front, q);
      SameDecoder(source, t);
      ReaderIs(t);
      var b := SameCount(Reader(source), Reader(t), front, c);
      assert front + rest + [EOF_TOKEN] == front + (rest + [EOF_TOKEN]);
      RunAppend(Reader(t), INITIAL, front, rest + [EOF_TOKEN]);
      LineShowsNoMore(Formatting(o), n, source, t, Reader(t), b, q, k > 0, rest, stop, d);
      ErasedCount(Visible(d));
      ErasedCount(Read(source).doc + [n]);
    }
  }

  // ----- a byte order mark behind the text -----

  lemma MarkIsError(t: Bytes, i: nat)
    requires i > 0 && Locality.MarkAt(t, i)
    ensures Lexer.NextToken(t, i, true).LexError?
  {}

  /** In front of a byte order mark, no node can be put. */
  lemma MarkIsRefused(o: Options, source: Bytes, n: Node)
    requires Preserves(source) && CanAppend(o, n) && MarkFollows(source)
    ensures Reread(AppendedText(o, source, n)).None?
  {
    hide AppendedText, Reads, Lexer.ScanFrom, Lexer.NextToken, Reader, NodePieces, Printable, IsNew, Multiline.BlankFrom, AnySlashdashAtTop,
      ClosesAll, Render, Locality.MarkAt;
    var t := AppendedText(o, source, n);
    var text := NodeText(o, n);
    AppendedIs(o, source, n);
    assert source[..0] + text + source[0..] == text + source;
    Standing(source, 0, text, t);
    var tokens := NodeTextReads(o, n, t, 0, false);
    assert t[|text|..] == source[0..];
    MarkMoves(source, t, |text|);
    MarkIsError(t, |text|);
    InnerIsSome(t, 0, false, tokens, |text|);
    ReadsScan(t, 0, false, tokens, |text|);
  }

  lemma MarkMoves(source: Bytes, t: Bytes, d: nat)
    requires |t| == |source| + d && t[d..] == source[0..] && Locality.MarkAt(source, 0)
    ensures Locality.MarkAt(t, d)
  {
    Locality.SuffixDecodes(source, t, 0, d, 0);
  }

  // ----- a slashdash left over -----

  const B: Bytes := [0x62]

  /** A node with one argument. */
  const ONE_ARG := Node(Value(Text(B), [], None), [], [Value(NullValue, [], None)], [], [], None)

  lemma LetterReadsBack()
    ensures NameReadsBack(B) && IsBareName(B)
  {
    AsciiDecodes(B, 0);
    assert |Lexer.TRUE| == 4 && |Lexer.FALSE| == 5 && |Lexer.NULL_WORD| == 4 && |Lexer.INF| == 3 && |Lexer.MINUS_INF| == 4 && |Lexer.NAN| == 3;
  }

  lemma OneArgPieces(o: Options)
    requires o.spelling == SPELLED
    ensures NodePieces(Formatting(o), 0, ONE_ARG) == [Piece(BareIdentifier, B), SPACE, Piece(Null, NULL_TEXT), LINE_FEED]
  {
    LetterReadsBack();
    hide IsBareName, NameReadsBack;
    var f := Formatting(o);
    assert HeadPieces(f, ONE_ARG) == [Piece(BareIdentifier, B)];
    assert ArgPieces(f, ONE_ARG.args) == [SPACE, Piece(Null, NULL_TEXT)];
  }

  lemma OneArgCanBeAppended(o: Options)
    requires o.preserve && o.spelling == SPELLED && Multiline.BlankFrom(o.indent, 0)
    ensures CanAppend(o, ONE_ARG) && Unbroken(NodePieces(Formatting(o), 0, ONE_ARG))
  {
    LetterReadsBack();
    OneArgPieces(o);
    hide NameReadsBack, Multiline.BlankFrom, NoBreak, NodePieces;
    AsciiNoBreak(B);
    AsciiNoBreak(SPACE.data);
    AsciiNoBreak(NULL_TEXT);
  }

  lemma AsciiNoBreak(w: Bytes)
    requires forall x :: 0 <= x < |w| ==> 0x20 <= w[x] < 0x80 && w[x] != ';' as int
    ensures NoBreak(w)
  {
    forall x: nat | x < |w| ensures !Terminates(Lexer.PeekAt(w, x)) { AsciiDecodes(w, x); }
  }

  /** The slashdash takes the argument. */
  lemma LeftoverTakesArgument(o: Options, f: Env, b: Config, tokens: seq<Token>) returns (x: Config, m: Node)
    requires o.spelling == SPELLED && Matches(tokens, NodePieces(Formatting(o), 0, ONE_ARG)) && f == Reader(f.source)
    requires Idle(b.(skipEntry := false)) && b.skipEntry && b.blocks == []
    ensures Run(f, b, tokens) == Some(x) && Alike(b, x) && x.doc == b.doc + [m] && m.args == []
  {
    OneArgPieces(o);
    hide NodePieces, Run, NULL_TEXT, Strings.Unquoted;
    var pieces := NodePieces(Formatting(o), 0, ONE_ARG);
    var name, blank, v, last := tokens[0], tokens[1], tokens[2], tokens[3];
    assert name.id == pieces[0].id && blank.id == pieces[1].id && v.id == pieces[2].id && last.id == pieces[3].id;
    assert tokens == [name, blank, v, last];
    Slashdash.LeftoverTakesEntry(f, b, name, blank, v, last);
    var c := Slashdash.OneValue(f, b, name, []);
    x := EndNode(f, c, last.offset + |last.data|);
    m := Close(f, c.phase.open, last.offset + |last.data|);
  }

  /** A node with an argument is not read back behind a slashdash that is left over: the argument is missing. */
  lemma LeftoverIsNotReadBack(o: Options, source: Bytes)
    requires Preserves(source) && CanAppend(o, ONE_ARG) && LeavesSlashdash(source) && !MarkFollows(source)
    ensures !Shows(AppendedText(o, source, ONE_ARG), EraseAll(Read(source).doc + [ONE_ARG]))
  {
    hide AppendedText, Run, Step, EraseAll, Visible, Reader, Lexer.ScanFrom, Reads, AnySlashdashAtTop, ClosesAll, Quiet, Printable, NodePieces,
      Render, Idle, Erase, IsNew, Multiline.BlankFrom, Reread, ONE_ARG;
    var k, a, m, stop := Landmarks(source);
    var t := AppendedText(o, source, ONE_ARG);
    AppendedIs(o, source, ONE_ARG);
    var text := NodeText(o, ONE_ARG);
    Standing(source, a.lastEnd, text, t);
    var inner := NodeTextReads(o, ONE_ARG, t, a.lastEnd, k > 0);
    SameDecoder(source, t);
    var b := FrontParses(Reader(source), Reader(t), TokensOf(source)[..k], a);
    ReaderIs(t);
    StillLeftOver(a, b);
    var x, m1 := LeftoverTakesArgument(o, Reader(t), b, inner);
    InsertedShows(source, k, a, m, stop, text, t, inner, b, x, [m1]);
    EraseAllSnoc(a.doc, m1);
    EraseAllSnoc(a.doc, ONE_ARG);
    DifferentArgs(m1);
    var front := EraseAll(a.doc);
    assert (front + [Erase(m1)])[|front|] != (front + [Erase(ONE_ARG)])[|front|];
    ShownOnce(t, front + [Erase(m1)], front + [Erase(ONE_ARG)]);
  }

  lemma ShownOnce(t: Bytes, a: seq<Node>, b: seq<Node>)
    requires Shows(t, a) && a != b
    ensures !Shows(t, b)
  {}

  lemma StillLeftOver(a: Config, b: Config)
    requires Idle(a.(skipEntry := false)) && Resting(a) && b == a.(doc := b.doc)
    ensures Idle(b.(skipEntry := false)) && Alike(a, b) && b.blocks == []
  {}

  lemma DifferentArgs(m: Node)
    requires m.args == []
    ensures Erase(m) != Erase(ONE_ARG)
  {
    assert |EraseValues(m.args)| == 0 && |EraseValues(ONE_ARG.args)| == 1;
  }

  // ----- exactness -----

  /**
   * Main result: a node without semicolons and line breaks of its own, appended where no slashdash is left over, is read back
   * exactly when the last node was ended by a line break or a semicolon, or there is none, and no byte order mark follows.
   */
  lemma AppendedExactly(o: Options, source: Bytes, n: Node)
    requires Preserves(source) && CanAppend(o, n) && !LeavesSlashdash(source) && Unbroken(NodePieces(Formatting(o), 0, n))
    ensures Shows(AppendedText(o, source, n), EraseAll(Read(source).doc + [n])) <==> EndsLine(source) && !MarkFollows(source)
  {
    var line, mark := EndsLine(source), MarkFollows(source);
    hide *;
    if !line {
      AppendedJoins(o, source, n);
    } else if mark {
      MarkIsRefused(o, source, n);
      NothingShown(AppendedText(o, source, n), EraseAll(Read(source).doc + [n]));
    } else {
      AppendedReadsBack(o, source, n);
    }
  }

  lemma NothingShown(t: Bytes, nodes: seq<Node>)
    ensures Reread(t).None? ==> !Shows(t, nodes)
  {}

  /**
   * Main result: every printable node can be appended to a parsed source and is read back exactly when the last node was
   * ended by a line break or a semicolon, or there is none, it left no slashdash over, and no byte order mark follows.
   */
  lemma AppendingIsSafeExactly(o: Options, source: Bytes)
    requires Preserves(source) && o.preserve && o.spelling == SPELLED && Multiline.BlankFrom(o.indent, 0)
    ensures (forall n :: CanAppend(o, n) ==> Shows(AppendedText(o, source, n), EraseAll(Read(source).doc + [n])))
      <==> EndsLine(source) && !LeavesSlashdash(source) && !MarkFollows(source)
  {
    OneArgCanBeAppended(o);
    var safe, mark := EndsLine(source) && !LeavesSlashdash(source) && !MarkFollows(source), MarkFollows(source);
    hide *;
    if safe {
      forall n | CanAppend(o, n) ensures Shows(AppendedText(o, source, n), EraseAll(Read(source).doc + [n])) {
        AppendedReadsBack(o, source, n);
      }
    } else if mark {
      MarkIsRefused(o, source, ONE_ARG);
      NothingShown(AppendedText(o, source, ONE_ARG), EraseAll(Read(source).doc + [ONE_ARG]));
    } else if !EndsLine(source) {
      AppendedJoins(o, source, ONE_ARG);
    } else {
      LeftoverIsNotReadBack(o, source);
    }
  }
}
