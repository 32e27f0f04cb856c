// From trees to bytes and back: the text that the formatting writer prints is scanned into exactly the tokens it was
// printed from, and those parse to the same trees.
module Printing {
  import opened Basics
  import opened Tokens
  import opened Documents
  import opened Utf8
  import opened Generator
  import opened Spellings
  import opened Machine
  import Lexer
  import Lossless
  import Multiline
  import RoundTrip
  import Strings
  import Values

  // ----- how the writer spells things -----

  const NULL_TEXT: Bytes := Lexer.Chars("#null")

  /** Names and keys are bare where possible and quoted otherwise. */
  function TextPiece(s: Bytes): Piece {
    if IsBareName(s) then Piece(BareIdentifier, s) else Piece(QuotedString, Strings.Quoted(s))
  }

  /** Values are always quoted. */
  function ContentPiece(c: Content): Piece {
    match c
    case Text(s) => Piece(QuotedString, Strings.Quoted(s))
    case NullValue => Piece(Null, NULL_TEXT)
    case Literal(id, spelling) => Piece(id, spelling)
  }

  function NamePiece(c: Content): Piece {
    if c.Text? then TextPiece(c.chars) else ContentPiece(c)
  }

  /** A type name is written as it stands; its token is whatever the scanner takes it for in front of the parenthesis. */
  function TypePiece(typ: Bytes): Piece {
    var r := Lexer.NextToken(typ + [RP], 0, true);
    Piece(if r.Lexed? then r.id else Unknown, typ)
  }

  const SPELLED := Spelling(
    (v: Value) => NamePiece(v.content), (v: Value) => ContentPiece(v.content), (k: Bytes) => TextPiece(k), (t: Bytes) => TypePiece(t))

  function Plain(indent: Bytes): Options { Options(indent, false, SPELLED) }

  // ----- which trees can be printed -----

  /** In front of the character stop, the scanner reads p as it was meant. */
  ghost predicate Scans(p: Piece, stop: Byte) {
    forall t: Bytes, i: nat, b: bool {:trigger Lexer.NextToken(t, i, b)} ::
      StandsAt(p.data, t, i) && i + |p.data| < |t| && t[i + |p.data|] == stop ==>
        Lexer.NextToken(t, i, b) == Lexer.Lexed(p.id, i + |p.data|, true)
  }

  /** A whitespace run ends in front of it. */
  predicate StartsWord(w: Bytes) {
    w != [] && Lexer.PeekAt(w, 0).Rune? && !IsWhiteSpace(Lexer.PeekAt(w, 0).c)
  }

  const SP: Byte := 0x20
  const NL: Byte := 0x0A
  const EQ: Byte := 0x3D
  const RP: Byte := 0x29

  /** Text whose quoted form reads back. */
  predicate QuotedReadsBack(s: Bytes) { Strings.QuotableFrom(s, 0) && ScannableFrom(s, 0) }

  /** A name or key whose printed form reads back. */
  predicate NameReadsBack(s: Bytes) {
    if IsBareName(s) then RunesFrom(s, 0) && !Lexer.Reserved(s) && !LooksNumeric(s) else QuotedReadsBack(s)
  }

  ghost predicate TypeReadsBack(typ: Bytes) {
    typ != [] ==> IsIdentifier(TypePiece(typ).id) && Scans(TypePiece(typ), RP)
  }

  ghost predicate ValueReadsBack(v: Value) {
    && TypeReadsBack(v.typ) && RoundTrip.KeepsType(v)
    && match v.content {
      case Text(s) => QuotedReadsBack(s)
      case NullValue => true
      case Literal(id, w) =>
        && IsNonStringValue(id) && !id.SuffixedDecimal? && !id.Null?
        && Scans(Piece(id, w), SP) && Scans(Piece(id, w), NL) && StartsWord(w)
    }
  }

  ghost predicate Printable(n: Node)
    decreases n
  {
    && TypeReadsBack(n.typ)
    && n.name.typ == [] && n.name.content.Text? && NameReadsBack(n.name.content.chars)
    && (forall k :: 0 <= k < |n.args| ==> ValueReadsBack(n.args[k]))
    && (forall k :: 0 <= k < |n.props| ==> NameReadsBack(n.props[k].key) && ValueReadsBack(n.props[k].value))
    && DistinctKeys(n.props)
    && (forall k :: 0 <= k < |n.children| ==> Printable(n.children[k]))
  }

  // ----- pieces as tokens -----

  /** From i to e, source t holds the pieces, and the scanner reads each of them as it was meant. */
  ghost predicate Lexes(t: Bytes, i: nat, pieces: seq<Piece>, e: nat)
    decreases |pieces|
  {
    if pieces == [] then i == e
    else
      var p := pieces[0];
      && p.data != []
      && StandsAt(p.data, t, i)
      && (forall b :: Lexer.NextToken(t, i, b) == Lexer.Lexed(p.id, i + |p.data|, true))
      && Lexes(t, i + |p.data|, pieces[1..], e)
  }

  lemma {:induction false} LexesAppend(t: Bytes, i: nat, a: seq<Piece>, m: nat, b: seq<Piece>, e: nat)
    requires Lexes(t, i, a, m) && Lexes(t, m, b, e)
    ensures Lexes(t, i, a + b, e)
    decreases |a|
  {
    hide Lexer.NextToken, StandsAt;
    if a == [] {
      assert a + b == b;
    } else {
      assert (a + b)[1..] == a[1..] + b && (a + b)[0] == a[0];
      LexesAppend(t, i + |a[0].data|, a[1..], m, b, e);
    }
  }

  lemma LexesOne(t: Bytes, i: nat, p: Piece)
    requires p.data != [] && StandsAt(p.data, t, i)
    requires forall b :: Lexer.NextToken(t, i, b) == Lexer.Lexed(p.id, i + |p.data|, true)
    ensures Lexes(t, i, [p], i + |p.data|)
  {
    assert [p][1..] == [];
  }

  /** The scanner turns the pieces into tokens that match them. */
  lemma {:induction false} LexedPiecesScan(t: Bytes, i: nat, pieces: seq<Piece>, bomChecked: bool) returns (tokens: seq<Token>)
    requires i <= |t| && Lexes(t, i, pieces, |t|)
    ensures Lexer.ScanFrom(t, i, bomChecked) == Lexer.Scanned(tokens, |t|) && RoundTrip.Matches(tokens, pieces)
    decreases |pieces|
  {
    hide Lexer.NextToken;
    if pieces == [] {
      AtTheEnd(t, bomChecked);
      tokens := [];
    } else {
      var p := pieces[0];
      var rest := LexedPiecesScan(t, i + |p.data|, pieces[1..], true);
      assert Lexer.NextToken(t, i, bomChecked) == Lexer.Lexed(p.id, i + |p.data|, true);
      tokens := [Token(p.id, p.data, i)] + rest;
    }
  }

  lemma AtTheEnd(t: Bytes, bomChecked: bool)
    ensures Lexer.NextToken(t, |t|, bomChecked).LexEof?
  {}

  /** Where a rendered list stands, its parts stand. */
  lemma StandsAppend(a: seq<Piece>, b: seq<Piece>, t: Bytes, i: nat)
    requires StandsAt(Render(a + b), t, i)
    ensures |Render(a + b)| == |Render(a)| + |Render(b)|
    ensures StandsAt(Render(a), t, i) && StandsAt(Render(b), t, i + |Render(a)|)
  {
    hide Render;
    RenderAppend(a, b);
    var x, y := Render(a), Render(b);
    assert (x + y)[0..|x|] == x && (x + y)[|x|..|x + y|] == y;
    StandsPart(x + y, t, i, 0, |x|);
    StandsPart(x + y, t, i, |x|, |x + y|);
  }

  lemma RenderOnePiece(p: Piece)
    ensures Render([p]) == p.data
  {
    assert [p][..0] == [];
    assert Render([]) + p.data == p.data;
  }

  // ----- single pieces -----

  /** One of the writer's marks, or a line feed: read as it was meant whatever follows. */
  lemma MarkScans(p: Piece, t: Bytes, i: nat)
    requires p in {LINE_FEED, OPEN, SHUT, PAREN_OPEN, PAREN_SHUT, ASSIGN} && StandsAt(p.data, t, i)
    ensures Lexes(t, i, [p], i + 1)
  {
    StandsPart(p.data, t, i, 0, 1);
    assert t[i + 0] == p.data[0];
    AsciiDecodes(t, i);
    hide Lexer.BlankToken, Lexer.SlashToken, Lexer.HashToken, Lexer.ZeroToken, Lexer.DecimalNumber, Lexer.Identifier;
    LexesOne(t, i, p);
  }

  /** At i stands something that ends a run of whitespace. */
  predicate WordAt(t: Bytes, i: nat) {
    i < |t| && Lexer.PeekAt(t, i).Rune? && !IsWhiteSpace(Lexer.PeekAt(t, i).c)
  }

  lemma WordStands(w: Bytes, t: Bytes, i: nat)
    requires StartsWord(w) && StandsAt(w, t, i)
    ensures WordAt(t, i)
  {
    assert w[0..] == w;
    OccursNext(w, 0, t, i);
  }

  lemma {:induction false} BlankRun(s: Bytes, k: nat, t: Bytes, j: nat, n: nat)
    requires k <= |s| && Multiline.BlankFrom(s, k) && Occurs(s, k, t, j) && WordAt(t, j + (|s| - k))
    ensures Lexer.SkipWhile(t, j, n, Lexer.BLANKS) == j + (|s| - k)
    decreases |s| - k
  {
    hide DecodeAt;
    if k < |s| {
      OccursNext(s, k, t, j);
      BlankRun(s, k + DecodeAt(s, k).size, t, j + DecodeAt(s, k).size, n + 1);
    }
  }

  /** A whitespace piece in front of a word. */
  lemma BlankScans(s: Bytes, t: Bytes, i: nat)
    requires s != [] && Multiline.BlankFrom(s, 0) && StandsAt(s, t, i) && WordAt(t, i + |s|)
    ensures Lexes(t, i, [Piece(Whitespace, s)], i + |s|)
  {
    assert s[0..] == s;
    BlankRun(s, 0, t, i, 0);
    OccursNext(s, 0, t, i);
    hide Lexer.SkipWhile, Lexer.SlashToken, Lexer.HashToken, Lexer.ZeroToken, Lexer.DecimalNumber, Lexer.Identifier,
      DecodeAt;
    BlankIsNoMark(DecodeAt(s, 0).c);
    LexesOne(t, i, Piece(Whitespace, s));
  }

  lemma BlankIsNoMark(c: Rune)
    ensures IsWhiteSpace(c) ==> c != 0xFEFF && c != RUNE_ERROR
  {}

  lemma QuoteIsOrdinary()
    ensures var c := '"' as int; c != 0xFEFF && !IsWhiteSpace(c) && !IsNewline(c) && !IsDigit(c) && Lexer.Punctuation(c).None? && c > 0x20
  {}

  /** A quoted string that reads back, in front of a character that is not a third quote. */
  lemma QuotedScans(s: Bytes, t: Bytes, i: nat, b: bool)
    requires QuotedReadsBack(s) && StandsAt(Strings.Quoted(s), t, i)
    requires i + |Strings.Quoted(s)| < |t| ==> t[i + |Strings.Quoted(s)|] != Strings.QUOTE
    ensures Lexer.NextToken(t, i, b) == Lexer.Lexed(QuotedString, i + |Strings.Quoted(s)|, true)
  {
    var q := Strings.Quoted(s);
    StandsPart(q, t, i, 0, 1);
    assert t[i + 0] == q[0];
    AsciiDecodes(t, i);
    if s == [] { EscapedNothing(); }
    QuotedFormScans(s, t, i);
    QuoteIsOrdinary();
    hide Lexer.QuotedText, IsWhiteSpace, IsNewline, IsDigit, Lexer.Punctuation, Strings.Quoted, ScannableFrom,
      Strings.QuotableFrom, DecodeAt;
  }

  lemma QuotedPieceScans(s: Bytes, stop: Byte)
    requires QuotedReadsBack(s) && stop != Strings.QUOTE
    ensures Scans(Piece(QuotedString, Strings.Quoted(s)), stop) && StartsWord(Strings.Quoted(s))
  {
    hide Lexer.NextToken, QuotedReadsBack, Strings.Quoted;
    var p := Piece(QuotedString, Strings.Quoted(s));
    forall t: Bytes, i: nat, b: bool | StandsAt(p.data, t, i) && i + |p.data| < |t| && t[i + |p.data|] == stop
      ensures Lexer.NextToken(t, i, b) == Lexer.Lexed(p.id, i + |p.data|, true)
    {
      QuotedScans(s, t, i, b);
    }
    QuotedStartsWord(s);
  }

  lemma QuotedStartsWord(s: Bytes)
    ensures StartsWord(Strings.Quoted(s))
  {
    AsciiDecodes(Strings.Quoted(s), 0);
  }

  /** Names and keys that read back do so in front of the characters the writer puts behind them. */
  lemma TextPieceScans(s: Bytes, stop: Byte)
    requires NameReadsBack(s) && stop in {SP, NL, EQ, RP}
    ensures Scans(TextPiece(s), stop) && StartsWord(TextPiece(s).data)
  {
    hide Lexer.NextToken, IsBareName, RunesFrom, Lexer.Reserved, LooksNumeric, QuotedReadsBack, Strings.Quoted, StartsWord;
    if IsBareName(s) {
      var p := TextPiece(s);
      forall t: Bytes, i: nat, b: bool | StandsAt(p.data, t, i) && i + |p.data| < |t| && t[i + |p.data|] == stop
        ensures Lexer.NextToken(t, i, b) == Lexer.Lexed(p.id, i + |p.data|, true)
      {
        BareNameRoundTrip(s, t, i, b);
      }
      BareStartsWord(s);
    } else {
      QuotedPieceScans(s, stop);
    }
  }

  lemma BareStartsWord(s: Bytes)
    requires IsBareName(s) && RunesFrom(s, 0)
    ensures StartsWord(s)
  {
    BareStartIsOrdinary(DecodeAt(s, 0).c);
  }

  lemma NullScans(stop: Byte)
    requires stop in {SP, NL}
    ensures Scans(Piece(Null, NULL_TEXT), stop) && StartsWord(NULL_TEXT)
  {
    hide Lexer.NextToken, Scans, StartsWord, Lexer.KeywordToken;
    assert NULL_TEXT == Lexer.Chars("#") + Lexer.NULL_WORD;
    NullIsNull();
    KeywordScans(Lexer.NULL_WORD, stop);
  }

  lemma NullIsNull()
    ensures Lexer.KeywordToken(Lexer.NULL_WORD) == Some(Null)
  {
    assert Lexer.NULL_WORD[0] != Lexer.TRUE[0];
  }

  /** A keyword behind its hash. */
  lemma KeywordScans(word: Bytes, stop: Byte)
    requires Lexer.KeywordToken(word).Some? && stop in {SP, NL}
    ensures Scans(Piece(Lexer.KeywordToken(word).value, Lexer.Chars("#") + word), stop)
    ensures StartsWord(Lexer.Chars("#") + word)
  {
    hide Lexer.NextToken;
    var p := Piece(Lexer.KeywordToken(word).value, Lexer.Chars("#") + word);
    forall t: Bytes, i: nat, b: bool | StandsAt(p.data, t, i) && i + |p.data| < |t| && t[i + |p.data|] == stop
      ensures Lexer.NextToken(t, i, b) == Lexer.Lexed(p.id, i + |p.data|, true)
    {
      KeywordStands(word, t, i, b);
    }
    AsciiDecodes(p.data, 0);
  }

  lemma {:induction false} KeywordRun(word: Bytes, k: nat, t: Bytes, j: nat, n: nat)
    requires k <= |word| && Occurs(word, k, t, j) && (forall m :: 0 <= m < |word| ==> Lexer.KEYWORD(0, word[m]))
    requires j + (|word| - k) < |t| && t[j + (|word| - k)] in {SP, NL}
    ensures Lexer.SkipWhile(t, j, n, Lexer.KEYWORD) == j + (|word| - k)
    decreases |word| - k
  {
    AsciiDecodes(t, j);
    if k < |word| {
      assert t[j] == t[j..j + (|word| - k)][0] == word[k..][0];
      assert t[j + 1..j + (|word| - k)] == t[j..j + (|word| - k)][1..] == word[k..][1..] == word[k + 1..];
      KeywordRun(word, k + 1, t, j + 1, n + 1);
    }
  }

  lemma KeywordLetters(word: Bytes)
    requires Lexer.KeywordToken(word).Some?
    ensures word != [] && forall m :: 0 <= m < |word| ==> Lexer.KEYWORD(0, word[m])
  {}

  lemma KeywordStands(word: Bytes, t: Bytes, i: nat, b: bool)
    requires Lexer.KeywordToken(word).Some? && StandsAt(Lexer.Chars("#") + word, t, i)
    requires i + 1 + |word| < |t| && t[i + 1 + |word|] in {SP, NL}
    ensures Lexer.NextToken(t, i, b) == Lexer.Lexed(Lexer.KeywordToken(word).value, i + 1 + |word|, true)
  {
    hide Lexer.SkipWhile, Lexer.KeywordToken, Lexer.RawText;
    KeywordLetters(word);
    var h := Lexer.Chars("#") + word;
    assert h[1..|h|] == word && word[0..] == word;
    StandsPart(h, t, i, 0, 1);
    StandsPart(h, t, i, 1, |h|);
    assert t[i + 0] == h[0];
    assert t[i + 1..i + 1 + |word|] == word;
    assert t[i + 1] == word[0];
    AsciiDecodes(t, i);
    AsciiDecodes(t, i + 1);
    AsciiDecodes(t, i + 1 + |word|);
    KeywordRun(word, 0, t, i + 1, 0);
    HashesAreOne(t, i);
  }

  lemma HashesAreOne(t: Bytes, i: nat)
    requires i + 1 < |t| && t[i] == '#' as int && t[i + 1] != '#' as int
    ensures Lexer.Hashes(t, i, |t| - i) == 1
  {
    AsciiDecodes(t, i);
    AsciiDecodes(t, i + 1);
  }

  /** Bare type names read back. */
  lemma BareTypeReadsBack(typ: Bytes)
    requires IsBareName(typ) && NameReadsBack(typ)
    ensures TypeReadsBack(typ)
  {
    hide Lexer.NextToken, IsBareName, RunesFrom, Lexer.Reserved, LooksNumeric, Scans;
    TextPieceScans(typ, RP);
    var t := typ + [RP];
    assert t[0..|typ|] == typ && StandsAt(typ, t, 0) && t[|typ|] == RP;
    BareNameRoundTrip(typ, t, 0, true);
  }

  /** So do quoted ones, quotes included. */
  lemma QuotedTypeReadsBack(s: Bytes)
    requires QuotedReadsBack(s)
    ensures TypeReadsBack(Strings.Quoted(s))
  {
    hide Lexer.NextToken, QuotedReadsBack, Strings.Quoted, Scans;
    var q := Strings.Quoted(s);
    QuotedPieceScans(s, RP);
    var t := q + [RP];
    assert t[0..|q|] == q && t[|q|] == RP;
    QuotedScans(s, t, 0, true);
  }

  predicate IsInteger(w: Bytes) {
    Lossless.Digits(w, 0, |w|) || (w != [] && (w[0] == '+' as int || w[0] == '-' as int) && Lossless.Digits(w, 1, |w|))
  }

  lemma IntegerStands(w: Bytes, t: Bytes, i: nat, b: bool)
    requires IsInteger(w) && StandsAt(w, t, i) && i + |w| < |t| && t[i + |w|] in {SP, NL}
    ensures Lexer.NextToken(t, i, b) == Lexer.Lexed(Decimal, i + |w|, true)
  {
    hide Lexer.Integer, Lexer.BlankToken, Lexer.SlashToken, Lexer.HashToken, Lexer.Identifier, Lexer.NumericBase;
    var e := i + |w|;
    var a: nat := if Lossless.Digits(w, 0, |w|) then i else i + 1;
    StandsPart(w, t, i, 0, |w|);
    assert Lossless.Digits(t, a, e) by {
      forall k | a <= k < e ensures t[k] == w[k - i] { assert t[i + (k - i)] == w[k - i]; }
    }
    assert t[i + 0] == w[0];
    AsciiDecodes(t, i);
    AsciiDecodes(t, i + 1);
    AsciiDecodes(t, e);
    Lossless.IntegerIsDigits(t, a, e);
  }

  /** Integers in decimal read back in front of the characters the writer puts behind values. */
  lemma IntegerReadsBack(w: Bytes)
    requires IsInteger(w)
    ensures ValueReadsBack(Value(Literal(Decimal, w), [], None))
  {
    hide Lexer.NextToken;
    var p := Piece(Decimal, w);
    forall t: Bytes, i: nat, b: bool | StandsAt(w, t, i) && i + |w| < |t| && t[i + |w|] in {SP, NL}
      ensures Lexer.NextToken(t, i, b) == Lexer.Lexed(Decimal, i + |w|, true)
    {
      IntegerStands(w, t, i, b);
    }
    AsciiDecodes(w, 0);
  }

  // ----- whole nodes -----

  /** Behind an entry stands the space of the next one or of the block, or the line feed. */
  predicate Ends(t: Bytes, e: nat) {
    e < |t| && (t[e] == SP || t[e] == NL)
  }

  lemma PieceThenRest(p: Piece, rest: seq<Piece>, t: Bytes, i: nat)
    requires StandsAt(Render([p] + rest), t, i)
    ensures |Render([p] + rest)| == |p.data| + |Render(rest)|
    ensures StandsAt(p.data, t, i) && StandsAt(Render(rest), t, i + |p.data|)
  {
    hide Render;
    StandsAppend([p], rest, t, i);
    RenderOnePiece(p);
  }

  lemma ScannedPiece(p: Piece, t: Bytes, i: nat, stop: Byte)
    requires Scans(p, stop) && p.data != [] && StandsAt(p.data, t, i) && i + |p.data| < |t| && t[i + |p.data|] == stop
    ensures Lexes(t, i, [p], i + |p.data|)
  {
    hide Lexer.NextToken;
    forall b ensures Lexer.NextToken(t, i, b) == Lexer.Lexed(p.id, i + |p.data|, true) {}
    LexesOne(t, i, p);
  }

  lemma FirstByte(p: Bytes, t: Bytes, i: nat)
    requires StandsAt(p, t, i) && p != []
    ensures i < |t| && t[i] == p[0]
  {
    assert t[i..i + |p|][0] == p[0];
  }

  lemma ParenIsWord(t: Bytes, i: nat)
    requires i < |t| && (t[i] == '(' as int || t[i] == '{' as int || t[i] == '}' as int)
    ensures WordAt(t, i)
  {
    AsciiDecodes(t, i);
  }

  lemma TypeLexes(o: Options, typ: Bytes, t: Bytes, i: nat)
    requires o.spelling == SPELLED && TypeReadsBack(typ) && StandsAt(Render(TypePieces(o, typ)), t, i)
    ensures Lexes(t, i, TypePieces(o, typ), i + |Render(TypePieces(o, typ))|)
    ensures typ != [] ==> WordAt(t, i)
  {
    hide Render, Lexes, Lexer.NextToken, Scans, WordAt;
    if typ == [] {
      LexesNothing(t, i);
    } else {
      var p := TypePiece(typ);
      assert TypePieces(o, typ) == [PAREN_OPEN] + ([p] + [PAREN_SHUT]);
      PieceThenRest(PAREN_OPEN, [p] + [PAREN_SHUT], t, i);
      PieceThenRest(p, [PAREN_SHUT], t, i + 1);
      RenderOnePiece(PAREN_SHUT);
      FirstByte(PAREN_SHUT.data, t, i + 1 + |typ|);
      FirstByte(PAREN_OPEN.data, t, i);
      ParenIsWord(t, i);
      MarkScans(PAREN_OPEN, t, i);
      ScannedPiece(p, t, i + 1, RP);
      MarkScans(PAREN_SHUT, t, i + 1 + |typ|);
      LexesAppend(t, i + 1, [p], i + 1 + |typ|, [PAREN_SHUT], i + 2 + |typ|);
      LexesAppend(t, i, [PAREN_OPEN], i + 1, [p] + [PAREN_SHUT], i + 2 + |typ|);
    }
  }

  lemma LexesNothing(t: Bytes, i: nat)
    ensures Lexes(t, i, [], i) && Render([]) == []
  {}

  /** A typed or plain word: the common shape of values and names. */
  lemma TypedWordLexes(o: Options, typ: Bytes, p: Piece, t: Bytes, i: nat)
    requires o.spelling == SPELLED && TypeReadsBack(typ) && StartsWord(p.data) && Scans(p, SP) && Scans(p, NL)
    requires StandsAt(Render(TypePieces(o, typ) + [p]), t, i) && Ends(t, i + |Render(TypePieces(o, typ) + [p])|)
    ensures Lexes(t, i, TypePieces(o, typ) + [p], i + |Render(TypePieces(o, typ) + [p])|) && WordAt(t, i)
  {
    hide Render, Lexes, Scans, TypePieces, TypeReadsBack;
    StandsAppend(TypePieces(o, typ), [p], t, i);
    var m := i + |Render(TypePieces(o, typ))|;
    RenderOnePiece(p);
    TypeLexes(o, typ, t, i);
    WordStands(p.data, t, m);
    ScannedPiece(p, t, m, t[m + |p.data|]);
    LexesAppend(t, i, TypePieces(o, typ), m, [p], m + |p.data|);
    if typ == [] {
      NoType(o);
    }
  }

  lemma NoType(o: Options)
    ensures TypePieces(o, []) == [] && Render([]) == []
  {}

  lemma ContentScans(v: Value)
    requires ValueReadsBack(v)
    ensures var p := ContentPiece(v.content); Scans(p, SP) && Scans(p, NL) && StartsWord(p.data)
  {
    hide Scans, StartsWord, QuotedReadsBack;
    match v.content
    case Text(s) => QuotedPieceScans(s, SP); QuotedPieceScans(s, NL);
    case NullValue => NullScans(SP); NullScans(NL);
    case Literal(_, _) =>
  }

  lemma ValueLexes(o: Options, v: Value, t: Bytes, i: nat)
    requires o.spelling == SPELLED && !o.preserve && ValueReadsBack(v)
    requires StandsAt(Render(ValuePieces(o, v)), t, i) && Ends(t, i + |Render(ValuePieces(o, v))|)
    ensures Lexes(t, i, ValuePieces(o, v), i + |Render(ValuePieces(o, v))|) && WordAt(t, i)
  {
    hide Render, Lexes, Scans, TypePieces, TypeReadsBack, StartsWord;
    ContentScans(v);
    TypedWordLexes(o, v.typ, ContentPiece(v.content), t, i);
  }

  /** A space in front of pieces that start with a word. */
  lemma SpaceLexes(rest: seq<Piece>, t: Bytes, i: nat)
    requires StandsAt(Render([SPACE] + rest), t, i) && WordAt(t, i + 1) && Lexes(t, i + 1, rest, i + 1 + |Render(rest)|)
    ensures Lexes(t, i, [SPACE] + rest, i + |Render([SPACE] + rest)|)
  {
    hide Render, Lexes, WordAt;
    PieceThenRest(SPACE, rest, t, i);
    SpaceIsBlank();
    BlankScans(SPACE.data, t, i);
    LexesAppend(t, i, [SPACE], i + 1, rest, i + 1 + |Render(rest)|);
  }

  lemma SpaceIsBlank()
    ensures Multiline.BlankFrom(SPACE.data, 0)
  {
    AsciiDecodes(SPACE.data, 0);
  }

  lemma {:induction false} ArgsLex(o: Options, args: seq<Value>, t: Bytes, i: nat)
    requires o.spelling == SPELLED && !o.preserve && forall k :: 0 <= k < |args| ==> ValueReadsBack(args[k])
    requires StandsAt(Render(ArgPieces(o, args)), t, i) && Ends(t, i + |Render(ArgPieces(o, args))|)
    ensures Lexes(t, i, ArgPieces(o, args), i + |Render(ArgPieces(o, args))|)
    ensures args != [] ==> Ends(t, i)
    decreases |args|
  {
    hide Render, Lexes, ValuePieces, ValueReadsBack, WordAt;
    if args == [] {
      LexesNothing(t, i);
    } else {
      var k := |args| - 1;
      var done, last := ArgPieces(o, args[..k]), [SPACE] + ValuePieces(o, args[k]);
      assert ArgPieces(o, args) == done + last;
      StandsAppend(done, last, t, i);
      var m := i + |Render(done)|;
      PieceThenRest(SPACE, ValuePieces(o, args[k]), t, m);
      FirstByte(SPACE.data, t, m);
      ValueLexes(o, args[k], t, m + 1);
      SpaceLexes(ValuePieces(o, args[k]), t, m);
      ArgsLex(o, args[..k], t, i);
      LexesAppend(t, i, done, m, last, m + |Render(last)|);
      if k == 0 { LexesNothing(t, i); }
    }
  }

  lemma PropLexes(o: Options, p: Prop, t: Bytes, i: nat)
    requires o.spelling == SPELLED && !o.preserve && NameReadsBack(p.key) && ValueReadsBack(p.value)
    requires var ps := [SPACE, TextPiece(p.key), ASSIGN] + ValuePieces(o, p.value);
      StandsAt(Render(ps), t, i) && Ends(t, i + |Render(ps)|)
    ensures var ps := [SPACE, TextPiece(p.key), ASSIGN] + ValuePieces(o, p.value); Lexes(t, i, ps, i + |Render(ps)|) && Ends(t, i)
  {
    hide Render, Lexes, ValuePieces, ValueReadsBack, WordAt, TextPiece, Scans, NameReadsBack, StartsWord;
    var value := ValuePieces(o, p.value);
    var key := TextPiece(p.key);
    var ps := [SPACE, key, ASSIGN] + value;
    assert ps == [SPACE] + ([key] + ([ASSIGN] + value));
    PieceThenRest(SPACE, [key] + ([ASSIGN] + value), t, i);
    FirstByte(SPACE.data, t, i);
    PieceThenRest(key, [ASSIGN] + value, t, i + 1);
    var j := i + 1 + |key.data|;
    PieceThenRest(ASSIGN, value, t, j);
    FirstByte(ASSIGN.data, t, j);
    TextPieceScans(p.key, EQ);
    WordIsNotEmpty(key.data);
    WordStands(key.data, t, i + 1);
    ScannedPiece(key, t, i + 1, EQ);
    MarkScans(ASSIGN, t, j);
    ValueLexes(o, p.value, t, j + 1);
    LexesAppend(t, j, [ASSIGN], j + 1, value, j + 1 + |Render(value)|);
    LexesAppend(t, i + 1, [key], j, [ASSIGN] + value, j + 1 + |Render(value)|);
    SpaceLexes([key] + ([ASSIGN] + value), t, i);
  }

  lemma WordIsNotEmpty(w: Bytes)
    requires StartsWord(w)
    ensures w != []
  {}

  lemma {:induction false} PropsLex(o: Options, props: seq<Prop>, t: Bytes, i: nat)
    requires o.spelling == SPELLED && !o.preserve
    requires forall k :: 0 <= k < |props| ==> NameReadsBack(props[k].key) && ValueReadsBack(props[k].value)
    requires StandsAt(Render(PropPieces(o, props)), t, i) && Ends(t, i + |Render(PropPieces(o, props))|)
    ensures Lexes(t, i, PropPieces(o, props), i + |Render(PropPieces(o, props))|)
    ensures props != [] ==> Ends(t, i)
    decreases |props|
  {
    hide Render, Lexes, ValuePieces, ValueReadsBack, NameReadsBack, TextPiece;
    if props == [] {
      LexesNothing(t, i);
    } else {
      var k := |props| - 1;
      var done := PropPieces(o, props[..k]);
      var last := [SPACE, TextPiece(props[k].key), ASSIGN] + ValuePieces(o, props[k].value);
      assert PropPieces(o, props) == done + last;
      StandsAppend(done, last, t, i);
      var m := i + |Render(done)|;
      PropLexes(o, props[k], t, m);
      PropsLex(o, props[..k], t, i);
      LexesAppend(t, i, done, m, last, m + |Render(last)|);
      if k == 0 { LexesNothing(t, i); }
    }
  }

  ghost predicate CanPrint(o: Options, n: Node) {
    o.spelling == SPELLED && !o.preserve && Multiline.BlankFrom(o.indent, 0) && Printable(n)
  }

  lemma {:induction false} IndentIsBlank(indent: Bytes, n: nat)
    requires Multiline.BlankFrom(indent, 0)
    ensures Multiline.BlankFrom(Times(indent, n), 0)
    ensures n > 0 && indent != [] ==> Times(indent, n) != []
  {
    if n > 0 {
      IndentIsBlank(indent, n - 1);
      Multiline.BlankIsLine(indent, 0);
      Multiline.IndentKeepsBlank(Times(indent, n - 1), 0, indent);
    }
  }

  /** The indentation in front of a word. */
  lemma IndentLexes(o: Options, depth: nat, t: Bytes, i: nat)
    requires Multiline.BlankFrom(o.indent, 0)
    requires StandsAt(Render(Indentation(o, depth)), t, i) && WordAt(t, i + |Render(Indentation(o, depth))|)
    ensures Lexes(t, i, Indentation(o, depth), i + |Render(Indentation(o, depth))|)
  {
    hide Render, Lexes, WordAt;
    if Indentation(o, depth) == [] {
      LexesNothing(t, i);
    } else {
      var s := Times(o.indent, depth);
      IndentIsBlank(o.indent, depth);
      RenderOnePiece(Piece(Whitespace, s));
      BlankScans(s, t, i);
    }
  }

  lemma HeadLexes(o: Options, n: Node, t: Bytes, i: nat)
    requires CanPrint(o, n) && StandsAt(Render(HeadPieces(o, n)), t, i) && Ends(t, i + |Render(HeadPieces(o, n))|)
    ensures Lexes(t, i, HeadPieces(o, n), i + |Render(HeadPieces(o, n))|) && WordAt(t, i)
  {
    var p := TextPiece(n.name.content.chars);
    TextPieceScans(n.name.content.chars, SP);
    TextPieceScans(n.name.content.chars, NL);
    NoType(o);
    assert HeadPieces(o, n) == TypePieces(o, n.typ) + [p] by {
      assert TypePieces(o, n.typ) + [] == TypePieces(o, n.typ);
    }
    hide *;
    TypedWordLexes(o, n.typ, p, t, i);
  }

  lemma BlockLexes(o: Options, depth: nat, n: Node, t: Bytes, i: nat)
    requires CanPrint(o, n) && StandsAt(Render(BlockPieces(o, depth, n)), t, i)
    ensures Lexes(t, i, BlockPieces(o, depth, n), i + |Render(BlockPieces(o, depth, n))|)
    ensures n.children != [] ==> Ends(t, i)
    decreases n, 0
  {
    hide Render, Lexes, WordAt, Indentation, NodesPieces, BlockPieces, Printable, Multiline.BlankFrom, StandsAt;
    BlockShape(o, depth, n);
    if n.children == [] {
      LexesNothing(t, i);
    } else {
      var inner, indent := NodesPieces(o, depth + 1, n.children), Indentation(o, depth);
      var tail := inner + (indent + [SHUT]);
      PieceThenRest(SPACE, [OPEN] + ([LINE_FEED] + tail), t, i);
      FirstByte(SPACE.data, t, i);
      PieceThenRest(OPEN, [LINE_FEED] + tail, t, i + 1);
      FirstByte(OPEN.data, t, i + 1);
      PieceThenRest(LINE_FEED, tail, t, i + 2);
      StandsAppend(inner, indent + [SHUT], t, i + 3);
      var j := i + 3 + |Render(inner)|;
      StandsAppend(indent, [SHUT], t, j);
      var k := j + |Render(indent)|;
      RenderOnePiece(SHUT);
      FirstByte(SHUT.data, t, k);
      ParenIsWord(t, i + 1);
      ParenIsWord(t, k);
      MarkScans(OPEN, t, i + 1);
      MarkScans(LINE_FEED, t, i + 2);
      MarkScans(SHUT, t, k);
      ChildrenCanPrint(o, n);
      NodesLex(o, depth + 1, n.children, t, i + 3);
      IndentLexes(o, depth, t, j);
      LexesAppend(t, j, indent, k, [SHUT], k + 1);
      LexesAppend(t, i + 3, inner, j, indent + [SHUT], k + 1);
      LexesAppend(t, i + 2, [LINE_FEED], i + 3, tail, k + 1);
      LexesAppend(t, i + 1, [OPEN], i + 2, [LINE_FEED] + tail, k + 1);
      SpaceLexes([OPEN] + ([LINE_FEED] + tail), t, i);
    }
  }

  lemma ChildrenCanPrint(o: Options, n: Node)
    requires CanPrint(o, n)
    ensures forall k :: 0 <= k < |n.children| ==> CanPrint(o, n.children[k])
  {}

  lemma BlockShape(o: Options, depth: nat, n: Node)
    ensures n.children == [] ==> BlockPieces(o, depth, n) == []
    ensures n.children != [] ==>
      BlockPieces(o, depth, n) == [SPACE] + ([OPEN] + ([LINE_FEED] + (NodesPieces(o, depth + 1, n.children) + (Indentation(o, depth) + [SHUT]))))
  {
    hide Indentation, NodesPieces;
  }

  lemma EndsAtNewline(t: Bytes, i: nat)
    requires StandsAt(LINE_FEED.data, t, i)
    ensures Ends(t, i)
  {
    FirstByte(LINE_FEED.data, t, i);
  }

  lemma NodeShape(o: Options, depth: nat, n: Node)
    ensures NodePieces(o, depth, n) ==
      Indentation(o, depth) + (HeadPieces(o, n) + (ArgPieces(o, n.args) + (PropPieces(o, n.props) + (BlockPieces(o, depth, n) + [LINE_FEED]))))
  {
    hide Indentation, HeadPieces, ArgPieces, PropPieces, BlockPieces;
  }

  lemma EntriesOk(o: Options, n: Node)
    requires CanPrint(o, n)
    ensures forall k :: 0 <= k < |n.args| ==> ValueReadsBack(n.args[k])
    ensures forall k :: 0 <= k < |n.props| ==> NameReadsBack(n.props[k].key) && ValueReadsBack(n.props[k].value)
  {}

  lemma NoArgs(o: Options)
    ensures ArgPieces(o, []) == [] && PropPieces(o, []) == [] && Render([]) == []
  {}

  lemma NodeLexes(o: Options, depth: nat, n: Node, t: Bytes, i: nat)
    requires CanPrint(o, n) && StandsAt(Render(NodePieces(o, depth, n)), t, i)
    ensures Lexes(t, i, NodePieces(o, depth, n), i + |Render(NodePieces(o, depth, n))|)
    decreases n, 1
  {
    hide Render, Lexes, WordAt, Indentation, HeadPieces, ArgPieces, PropPieces, BlockPieces, NodePieces, Printable,
      ValueReadsBack, NameReadsBack, Multiline.BlankFrom, Ends, StandsAt;
    NodeShape(o, depth, n);
    var indent, head, args := Indentation(o, depth), HeadPieces(o, n), ArgPieces(o, n.args);
    var props, block := PropPieces(o, n.props), BlockPieces(o, depth, n);
    StandsAppend(indent, head + (args + (props + (block + [LINE_FEED]))), t, i);
    var i1 := i + |Render(indent)|;
    StandsAppend(head, args + (props + (block + [LINE_FEED])), t, i1);
    var i2 := i1 + |Render(head)|;
    StandsAppend(args, props + (block + [LINE_FEED]), t, i2);
    var i3 := i2 + |Render(args)|;
    StandsAppend(props, block + [LINE_FEED], t, i3);
    var i4 := i3 + |Render(props)|;
    StandsAppend(block, [LINE_FEED], t, i4);
    var i5 := i4 + |Render(block)|;
    RenderOnePiece(LINE_FEED);
    EndsAtNewline(t, i5);
    MarkScans(LINE_FEED, t, i5);
    NoArgs(o);
    BlockShape(o, depth, n);
    BlockLexes(o, depth, n, t, i4);
    EntriesOk(o, n);
    PropsLex(o, n.props, t, i3);
    ArgsLex(o, n.args, t, i2);
    HeadLexes(o, n, t, i1);
    IndentLexes(o, depth, t, i);
    LexesAppend(t, i4, block, i5, [LINE_FEED], i5 + 1);
    LexesAppend(t, i3, props, i4, block + [LINE_FEED], i5 + 1);
    LexesAppend(t, i2, args, i3, props + (block + [LINE_FEED]), i5 + 1);
    LexesAppend(t, i1, head, i2, args + (props + (block + [LINE_FEED])), i5 + 1);
    LexesAppend(t, i, indent, i1, head + (args + (props + (block + [LINE_FEED]))), i5 + 1);
  }

  lemma NodesLex(o: Options, depth: nat, nodes: seq<Node>, t: Bytes, i: nat)
    requires (forall k :: 0 <= k < |nodes| ==> CanPrint(o, nodes[k])) && StandsAt(Render(NodesPieces(o, depth, nodes)), t, i)
    ensures Lexes(t, i, NodesPieces(o, depth, nodes), i + |Render(NodesPieces(o, depth, nodes))|)
    decreases nodes
  {
    hide Render, Lexes, NodePieces, CanPrint;
    if nodes == [] {
      LexesNothing(t, i);
    } else {
      var k := |nodes| - 1;
      var done, last := NodesPieces(o, depth, nodes[..k]), NodePieces(o, depth, nodes[k]);
      assert NodesPieces(o, depth, nodes) == done + last;
      StandsAppend(done, last, t, i);
      var m := i + |Render(done)|;
      NodesLex(o, depth, nodes[..k], t, i);
      NodeLexes(o, depth, nodes[k], t, m);
      LexesAppend(t, i, done, m, last, m + |Render(last)|);
    }
  }

  // ----- what the tokens mean -----

  function Reader(source: Bytes): Env { Env((t: Token) => Values.Meaning(t), source) }

  lemma ContentDecodes(source: Bytes, o: Options, v: Value)
    requires o.spelling == SPELLED && ValueReadsBack(v)
    ensures RoundTrip.ReadableValue(Reader(source), o, v)
  {
    hide Scans, StartsWord, Strings.Quoted, Strings.Unquoted, Strings.QuotableFrom, ScannableFrom;
    if v.content.Text? { Strings.QuoteRoundTrip(v.content.chars); }
  }

  lemma TextDecodes(source: Bytes, s: Bytes)
    requires NameReadsBack(s)
    ensures IsIdentifier(TextPiece(s).id) && RoundTrip.Decodes(Reader(source), TextPiece(s), Text(s))
  {
    hide Strings.Quoted, Strings.Unquoted, Strings.QuotableFrom, ScannableFrom, IsBareName, RunesFrom, LooksNumeric,
      Lexer.Reserved;
    if !IsBareName(s) { Strings.QuoteRoundTrip(s); }
  }

  lemma PrintableIsReadable(source: Bytes, o: Options, n: Node)
    requires CanPrint(o, n)
    ensures RoundTrip.Readable(Reader(source), o, n)
    decreases n
  {
    hide NameReadsBack, ValueReadsBack, TextPiece, RoundTrip.ReadableValue, Multiline.BlankFrom;
    TextDecodes(source, n.name.content.chars);
    forall k | 0 <= k < |n.args| ensures RoundTrip.ReadableValue(Reader(source), o, n.args[k]) {
      ContentDecodes(source, o, n.args[k]);
    }
    forall k | 0 <= k < |n.props|
      ensures RoundTrip.ReadableKey(Reader(source), o, n.props[k].key)
      ensures RoundTrip.ReadableValue(Reader(source), o, n.props[k].value)
    {
      TextDecodes(source, n.props[k].key);
      ContentDecodes(source, o, n.props[k].value);
    }
    forall k | 0 <= k < |n.children| ensures RoundTrip.Readable(Reader(source), o, n.children[k]) {
      PrintableIsReadable(source, o, n.children[k]);
    }
  }

  lemma {:induction false} OutputIsRendered(o: Options, nodes: seq<Node>)
    requires !o.preserve
    ensures NodesOutput(o, nodes) == Render(NodesPieces(o, 0, nodes))
    decreases |nodes|
  {
    hide NodePieces;
    if nodes != [] {
      var k := |nodes| - 1;
      OutputIsRendered(o, nodes[..k]);
      RenderAppend(NodesPieces(o, 0, nodes[..k]), NodePieces(o, 0, nodes[k]));
    }
  }

  /**
   * Main result: the text that the formatting writer prints for printable trees is scanned to its end without an error,
   * its tokens are accepted by the parser with every block closed, and the trees come back with the same names, types,
   * arguments, properties and children, in the same order, at every depth.
   */
  lemma PrintedTextReadsBack(o: Options, nodes: seq<Node>)
    requires forall k :: 0 <= k < |nodes| ==> CanPrint(o, nodes[k])
    requires o.spelling == SPELLED && !o.preserve
    ensures var text := DocumentOutput(o, Document(nodes, []));
      var scan := Lexer.ScanFrom(text, 0, false);
      && scan.Scanned? && scan.stop == |text|
      && var parsed := ParseAll(Reader(text), scan.tokens);
      && parsed.Some? && parsed.value.blocks == [] && parsed.value.phase.Between?
      && RoundTrip.EraseAll(Visible(parsed.value)) == RoundTrip.EraseAll(nodes)
  {
    hide Render, Lexes, CanPrint, RoundTrip.Readable, NodesPieces, Lexer.ScanFrom, Visible, RoundTrip.EraseAll;
    OutputIsRendered(o, nodes);
    var pieces := NodesPieces(o, 0, nodes);
    var text := DocumentOutput(o, Document(nodes, []));
    assert text == Render(pieces);
    assert text[0..|text|] == text;
    NodesLex(o, 0, nodes, text, 0);
    var tokens := LexedPiecesScan(text, 0, pieces, false);
    forall k | 0 <= k < |nodes| ensures RoundTrip.Readable(Reader(text), o, nodes[k]) {
      PrintableIsReadable(text, o, nodes[k]);
    }
    RoundTrip.PrintedDocumentReadsBack(Reader(text), o, nodes, tokens);
  }
}
