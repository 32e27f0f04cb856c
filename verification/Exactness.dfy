// Formatting is exact or fails: the printed text reads back as the trees it was printed from if all their texts can be
// spelled, and is refused otherwise.
module Exactness {
  import opened Basics
  import opened Tokens
  import opened Documents
  import opened Utf8
  import opened Generator
  import opened Spellings
  import opened Machine
  import opened Printing
  import opened Refusal
  import opened RoundTrip
  import Kdl
  import Lexer
  import Multiline
  import Strings

  // ----- entries that mean nothing -----

  /** An entry without a meaning fails at whatever shows that it is an argument. */
  lemma PendingFails(e: Env, b: Config, m: Node, tok: Token, typ: Token, t: Bytes, j: nat)
    requires Idle(b) && tok.Valid() && e.decode(tok) == None && Follows(t, j)
    ensures Fails(e, Fresh(b, Spot(m, tok, typ)), t, j)
  {
    hide Step, Lexer.NextToken, Fresh, Spaced, Lexer.ScanFrom;
    var s := Spot(m, tok, typ);
    if t[j] == NL {
      assert t[j..j + 1] == LINE_FEED.data;
      MarkScans(LINE_FEED, t, j);
      PendingRefuses(e, b, s, Token(Newline, t[j..j + 1], j));
      TokenFails(e, Fresh(b, s), t, j);
    } else {
      PendingSpace(e, b, s, Token(Whitespace, SPACE.data, j));
      var k := j + 1;
      forall checked ensures FailsWith(e, Spaced(b, s), t, k, Lexer.NextToken(t, k, checked)) {
        var r := Lexer.NextToken(t, k, checked);
        assert StartsEntry(r);
        PendingRefuses(e, b, s, EOF_TOKEN);
        if r.Lexed? { PendingRefuses(e, b, s, Token(r.id, t[k..r.end], k)); }
      }
      TokenFails(e, Spaced(b, s), t, k);
      SpaceThen(e, Fresh(b, s), Spaced(b, s), t, j);
    }
  }

  lemma PendingSpace(e: Env, b: Config, s: Spot, t: Token)
    requires Idle(b) && t.id.Whitespace?
    ensures Step(e, Fresh(b, s), t) == Some(Spaced(b, s))
  {}

  lemma PendingRefuses(e: Env, b: Config, s: Spot, t: Token)
    requires Idle(b) && s.ident.Valid() && e.decode(s.ident) == None
    ensures IsTerminator(t.id) ==> Step(e, Fresh(b, s), t) == None
    ensures IsTerminator(t.id) || IsValue(t.id) || t.id.ParensOpen? || t.id.BraceOpen? ==> Step(e, Spaced(b, s), t) == None
  {}

  // ----- which trees are spelled, and which texts read back -----

  /** What the writer relies on: types and literals are written as they stand, and no type is lost. */
  ghost predicate ValueSpellable(v: Value) {
    && TypeReadsBack(v.typ) && KeepsType(v)
    && (v.content.Literal? ==>
      var p := Piece(v.content.id, v.content.spelling);
      && IsNonStringValue(p.id) && !p.id.SuffixedDecimal? && !p.id.Null?
      && Scans(p, SP) && Scans(p, NL) && StartsWord(p.data))
  }

  predicate ValueTextOk(v: Value) {
    v.content.Text? ==> QuotedReadsBack(v.content.chars)
  }

  ghost predicate Spellable(n: Node)
    decreases n
  {
    && TypeReadsBack(n.typ) && n.name.typ == [] && n.name.content.Text?
    && (forall k :: 0 <= k < |n.args| ==> ValueSpellable(n.args[k]))
    && (forall k :: 0 <= k < |n.props| ==> ValueSpellable(n.props[k].value))
    && DistinctKeys(n.props)
    && (forall k :: 0 <= k < |n.children| ==> Spellable(n.children[k]))
  }

  predicate ArgsOk(args: seq<Value>) { forall k :: 0 <= k < |args| ==> ValueTextOk(args[k]) }

  predicate PropOk(p: Prop) { NameReadsBack(p.key) && ValueTextOk(p.value) }

  predicate PropsOk(props: seq<Prop>) { forall k :: 0 <= k < |props| ==> PropOk(props[k]) }

  /** Every name, key and text of the tree can be read back from the way it is written. */
  predicate TextsOk(n: Node)
    decreases n
  {
    && (n.name.content.Text? ==> NameReadsBack(n.name.content.chars))
    && ArgsOk(n.args) && PropsOk(n.props)
    && (forall k :: 0 <= k < |n.children| ==> TextsOk(n.children[k]))
  }

  lemma ValueIsPrintable(v: Value)
    ensures ValueReadsBack(v) <==> ValueSpellable(v) && ValueTextOk(v)
  {
    hide TypeReadsBack, Scans, StartsWord, QuotedReadsBack;
  }

  lemma {:induction false} PrintableIsBoth(n: Node)
    ensures Printable(n) <==> Spellable(n) && TextsOk(n)
    decreases n
  {
    hide TypeReadsBack, ValueReadsBack, ValueSpellable, ValueTextOk, NameReadsBack;
    forall k | 0 <= k < |n.args| ensures ValueReadsBack(n.args[k]) <==> ValueSpellable(n.args[k]) && ValueTextOk(n.args[k]) {
      ValueIsPrintable(n.args[k]);
    }
    forall k | 0 <= k < |n.props|
      ensures ValueReadsBack(n.props[k].value) <==> ValueSpellable(n.props[k].value) && ValueTextOk(n.props[k].value)
    {
      ValueIsPrintable(n.props[k].value);
    }
    forall k | 0 <= k < |n.children| ensures Printable(n.children[k]) <==> Spellable(n.children[k]) && TextsOk(n.children[k]) {
      PrintableIsBoth(n.children[k]);
    }
  }

  // ----- types and texts -----

  /** The parser's environment is the value parser's. */
  ghost predicate Reads(e: Env) { e == Reader(e.source) }

  /** A type annotation, and then a failure. */
  lemma TypeThen(e: Env, o: Options, c: Config, d: Config, typ: Bytes, t: Bytes, i: nat)
    requires o.spelling == SPELLED && typ != [] && TypeReadsBack(typ) && StandsAt(Render(TypePieces(o, typ)), t, i)
    requires Step(e, c, Token(ParensOpen, PAREN_OPEN.data, i)) == Some(d) && d.annotation.Wanted? && !d.cont
    requires Fails(e, d.(annotation := NoAnnotation, typ := Token(TypePiece(typ).id, typ, i + 1)), t, i + |typ| + 2)
    ensures Fails(e, c, t, i)
  {
    hide Step, Scans, Lexes, Render, Fails, Run, Lexer.NextToken;
    TypeLexes(o, typ, t, i);
    TypeLength(o, typ);
    var p := TypePiece(typ);
    var pieces := TypePieces(o, typ);
    var tokens := TokensAt(pieces, i);
    assert pieces == [PAREN_OPEN, p, PAREN_SHUT];
    assert tokens == [Token(ParensOpen, PAREN_OPEN.data, i), Token(p.id, typ, i + 1), Token(ParensClose, PAREN_SHUT.data, i + 1 + |typ|)] by {
      ThreeTokens(PAREN_OPEN, p, PAREN_SHUT, i);
    }
    RunHead(e, c, tokens, d);
    assert tokens[1..] == [tokens[1], tokens[2]];
    AnnotationReads(e, d, tokens[1], tokens[2]);
    ForwardFails(e, c, t, i, pieces, i + |typ| + 2, d.(annotation := NoAnnotation, typ := tokens[1]));
  }

  lemma TypeLength(o: Options, typ: Bytes)
    requires o.spelling == SPELLED && typ != []
    ensures |Render(TypePieces(o, typ))| == |typ| + 2
  {
    hide Render;
    assert TypePieces(o, typ) == [PAREN_OPEN] + ([TypePiece(typ)] + [PAREN_SHUT]);
    RenderAppend([PAREN_OPEN], [TypePiece(typ)] + [PAREN_SHUT]);
    RenderAppend([TypePiece(typ)], [PAREN_SHUT]);
    RenderOnePiece(PAREN_OPEN);
    RenderOnePiece(TypePiece(typ));
    RenderOnePiece(PAREN_SHUT);
  }

  /** A quoted text that does not read back: nothing readable, or a token without a meaning that the parser must not survive. */
  lemma BadTextFails(e: Env, c: Config, s: Bytes, t: Bytes, i: nat)
    requires Reads(e) && !QuotedReadsBack(s) && StandsAt(Strings.Quoted(s), t, i)
    requires var end := i + |Strings.Quoted(s)|; end < |t| && t[end] != Strings.QUOTE
    requires var tok := Token(QuotedString, Strings.Quoted(s), i); var end := i + |Strings.Quoted(s)|;
      e.decode(tok) == None ==> Dooms(e, c, tok, t, end)
    ensures Fails(e, c, t, i)
  {
    hide Step, Strings.Quoted, ScannableFrom, Strings.QuotableFrom, Lexer.NextToken, Dooms;
    if ScannableFrom(s, 0) {
      ScannableLexes(s, t, i);
      UnquotableMeansNothing(s, i);
      QuotedIsNotEmpty(s);
    } else {
      UnscannableIsUnread(s, t, i);
    }
    TokenFails(e, c, t, i);
  }

  lemma QuotedIsNotEmpty(s: Bytes)
    ensures |Strings.Quoted(s)| >= 2
  {}

  // ----- entries -----

  /** A text in an entry, read in a state that waits to see whether it is an argument. */
  lemma PendingTextFails(e: Env, b: Config, c: Config, m: Node, typ: Token, s: Bytes, t: Bytes, i: nat)
    requires Reads(e) && Idle(b) && !QuotedReadsBack(s) && StandsAt(Strings.Quoted(s), t, i) && Follows(t, i + |Strings.Quoted(s)|)
    requires var tok := Token(QuotedString, Strings.Quoted(s), i); Step(e, c, tok) == Some(Fresh(b, Spot(m, tok, typ)))
    ensures Fails(e, c, t, i)
  {
    hide Step, Fresh, Idle, Fails, Strings.Quoted, QuotedReadsBack, EntryAt;
    var tok := Token(QuotedString, Strings.Quoted(s), i);
    if e.decode(tok) == None {
      PendingFails(e, b, m, tok, typ, t, i + |Strings.Quoted(s)|);
    }
    BadTextFails(e, c, s, t, i);
  }

  /** An argument whose text does not read back. */
  lemma BadArgFails(e: Env, o: Options, b: Config, s: Spot, m: Node, v: Value, t: Bytes, i: nat)
    requires Reads(e) && Idle(b) && Settled(e, s) == Some(m) && o.spelling == SPELLED && !o.preserve
    requires ValueSpellable(v) && !ValueTextOk(v)
    requires StandsAt(Render(ValuePieces(o, v)), t, i) && Follows(t, i + |Render(ValuePieces(o, v))|)
    ensures Fails(e, Spaced(b, s), t, i)
  {
    hide Step, Fresh, Spaced, Fails, Idle, Settled, Strings.Quoted, QuotedReadsBack, Follows, Render, Scans, Reads, TypePiece;
    var x := v.content.chars;
    StandsAppend(TypePieces(o, v.typ), [Piece(QuotedString, Strings.Quoted(x))], t, i);
    RenderOnePiece(Piece(QuotedString, Strings.Quoted(x)));
    var j := i + |Render(TypePieces(o, v.typ))|;
    var tok := Token(QuotedString, Strings.Quoted(x), j);
    if v.typ == [] {
      NoType(o);
      PlainEntryReads(e, b, s, tok, m);
      PendingTextFails(e, b, Spaced(b, s), m, NO_TOKEN, x, t, j);
    } else {
      TypeLength(o, v.typ);
      var typ := Token(TypePiece(v.typ).id, v.typ, i + 1);
      AnnotationOpens(e, b, s, Token(ParensOpen, PAREN_OPEN.data, i), m);
      TypedEntryReads(e, b, m, typ, tok);
      PendingTextFails(e, b, In(b, AtParams, Spot(m, NO_TOKEN, typ), false), m, typ, x, t, j);
      NotContinued(b);
      TypeThen(e, o, Spaced(b, s), In(b, AtParams, Spot(m, NO_TOKEN, NO_TOKEN), false).(annotation := Wanted), v.typ, t, i);
    }
  }

  lemma NotContinued(b: Config)
    requires Idle(b)
    ensures !b.cont && b.annotation.NoAnnotation?
  {}

  lemma PropValueRefuses(e: Env, b: Config, m: Node, key: Token, typ: Token, t: Token)
    requires Idle(b) && IsValue(t.id) && (e.decode(key) == None || e.decode(t) == None)
    ensures Step(e, In(b, AtPropValue, Spot(m, key, typ), false), t) == None
  {}

  /** The token of a value, where the parser refuses it as soon as it has no meaning or, if all is set, in any case. */
  lemma ValueTokenFails(e: Env, c: Config, v: Value, all: bool, t: Bytes, i: nat)
    requires Reads(e) && ValueSpellable(v) && (all || !ValueTextOk(v))
    requires StandsAt(ContentPiece(v.content).data, t, i) && Ends(t, i + |ContentPiece(v.content).data|)
    requires forall tok: Token :: IsValue(tok.id) && (all || e.decode(tok) == None) ==> Step(e, c, tok) == None
    ensures Fails(e, c, t, i)
  {
    hide Step, Scans, StartsWord, TypeReadsBack, QuotedReadsBack, Lexer.NextToken, Strings.Quoted, Reads;
    var p := ContentPiece(v.content);
    if !ValueTextOk(v) {
      BadTextFails(e, c, v.content.chars, t, i);
    } else {
      ValueIsPrintable(v);
      ContentScans(v);
      WordIsNotEmpty(p.data);
      ScannedPiece(p, t, i, t[i + |p.data|]);
      assert IsValue(p.id);
      TokenFails(e, c, t, i);
    }
  }

  /** The value of a property, if it has no meaning or the key has none. */
  lemma PropValueFails(e: Env, o: Options, b: Config, m: Node, key: Token, v: Value, t: Bytes, i: nat)
    requires Reads(e) && Idle(b) && o.spelling == SPELLED && !o.preserve
    requires ValueSpellable(v) && (e.decode(key) == None || !ValueTextOk(v))
    requires StandsAt(Render(ValuePieces(o, v)), t, i) && Ends(t, i + |Render(ValuePieces(o, v))|)
    ensures Fails(e, In(b, AtPropValue, Spot(m, key, NO_TOKEN), false), t, i)
  {
    hide Step, Fails, Idle, ContentPiece, ValueTextOk, Ends, Render, Scans, Reads, TypePiece;
    StandsAppend(TypePieces(o, v.typ), [ContentPiece(v.content)], t, i);
    RenderOnePiece(ContentPiece(v.content));
    var j := i + |Render(TypePieces(o, v.typ))|;
    var typ := if v.typ == [] then NO_TOKEN else Token(TypePiece(v.typ).id, v.typ, i + 1);
    var c := In(b, AtPropValue, Spot(m, key, NO_TOKEN), false);
    var d := In(b, AtPropValue, Spot(m, key, typ), false);
    var all := e.decode(key) == None;
    forall tok: Token | IsValue(tok.id) && (all || e.decode(tok) == None) ensures Step(e, d, tok) == None {
      PropValueRefuses(e, b, m, key, typ, tok);
    }
    ValueTokenFails(e, d, v, all, t, j);
    if v.typ == [] {
      NoType(o);
    } else {
      TypeLength(o, v.typ);
      PropAnnotationOpens(e, b, Spot(m, key, NO_TOKEN), Token(ParensOpen, PAREN_OPEN.data, i));
      NotContinued(b);
      TypeThen(e, o, c, c.(annotation := Wanted), v.typ, t, i);
    }
  }

  /** The equals sign behind a key, and then a failure. */
  lemma EqualsThen(e: Env, b: Config, m: Node, key: Token, t: Bytes, i: nat)
    requires Idle(b) && IsIdentifier(key.id) && StandsAt(ASSIGN.data, t, i)
    requires Fails(e, In(b, AtPropValue, Spot(m, key, NO_TOKEN), false), t, i + 1)
    ensures Fails(e, Fresh(b, Spot(m, key, NO_TOKEN)), t, i)
  {
    hide Step, Fresh, Fails, Idle, Lexer.NextToken;
    MarkScans(ASSIGN, t, i);
    EqualsReads(e, b, m, key, Token(Equals, ASSIGN.data, i));
    TokenFails(e, Fresh(b, Spot(m, key, NO_TOKEN)), t, i);
  }

  /** A property whose key does not read back. */
  lemma BadKeyFails(e: Env, o: Options, b: Config, s: Spot, m: Node, p: Prop, t: Bytes, i: nat)
    requires Reads(e) && Idle(b) && Settled(e, s) == Some(m) && o.spelling == SPELLED && !o.preserve
    requires !NameReadsBack(p.key) && ValueSpellable(p.value)
    requires var key := TextPiece(p.key).data; var j := i + |key|;
      StandsAt(key, t, i) && StandsAt(ASSIGN.data, t, j)
      && StandsAt(Render(ValuePieces(o, p.value)), t, j + 1) && Ends(t, j + 1 + |Render(ValuePieces(o, p.value))|)
    ensures Fails(e, Spaced(b, s), t, i)
  {
    hide Step, Fresh, Spaced, Fails, Idle, Settled, Strings.Quoted, IsBareName, NameReadsBack, Ends, Render, Reads,
      ValueSpellable, Lexer.NextToken, ValuePieces;
    var key := TextPiece(p.key).data;
    var j := i + |key|;
    FirstByte(ASSIGN.data, t, j);
    if IsBareName(p.key) {
      BadBareKey(key, t, i);
      forall checked ensures FailsWith(e, Spaced(b, s), t, i, Lexer.NextToken(t, i, checked)) {
        var r := Lexer.NextToken(t, i, checked);
        if r.Lexed? { CutKeyFails(e, b, s, m, t, i, r.end); }
      }
      TokenFails(e, Spaced(b, s), t, i);
    } else {
      var tok := Token(QuotedString, key, i);
      PlainEntryReads(e, b, s, tok, m);
      if e.decode(tok) == None {
        PropValueFails(e, o, b, m, tok, p.value, t, j + 1);
        EqualsThen(e, b, m, tok, t, j);
      }
      NotQuotedBack(p.key);
      BadTextFails(e, Spaced(b, s), p.key, t, i);
    }
  }

  lemma NotQuotedBack(s: Bytes)
    requires !NameReadsBack(s) && !IsBareName(s)
    ensures !QuotedReadsBack(s)
  {}

  /** A key that was cut short by something unreadable. */
  lemma CutKeyFails(e: Env, b: Config, s: Spot, m: Node, t: Bytes, i: nat, end: nat)
    requires Idle(b) && Settled(e, s) == Some(m) && i < end <= |t| && Lexer.PeekAt(t, end).Invalid?
    ensures Dooms(e, Spaced(b, s), Token(Decimal, t[i..end], i), t, end)
  {
    hide Step, Fresh, Spaced, Idle, Settled, Lexer.PeekAt;
    var tok := Token(Decimal, t[i..end], i);
    PlainEntryReads(e, b, s, tok, m);
    TokenFails(e, Fresh(b, Spot(m, tok, NO_TOKEN)), t, end);
  }

  /** A property whose key or whose value does not read back. */
  lemma BadPropFails(e: Env, o: Options, b: Config, s: Spot, m: Node, p: Prop, t: Bytes, i: nat)
    requires Reads(e) && Idle(b) && Settled(e, s) == Some(m) && o.spelling == SPELLED && !o.preserve
    requires !PropOk(p) && ValueSpellable(p.value)
    requires var ps := [TextPiece(p.key)] + ([ASSIGN] + ValuePieces(o, p.value)); StandsAt(Render(ps), t, i) && Ends(t, i + |Render(ps)|)
    ensures Fails(e, Spaced(b, s), t, i)
  {
    hide Step, Fresh, Spaced, Fails, Idle, Settled, TextPiece, NameReadsBack, Ends, Render, Reads, ValueSpellable,
      ValueTextOk, ValuePieces, Scans, Lexer.NextToken;
    var key := TextPiece(p.key);
    var j := i + |key.data|;
    PieceThenRest(key, [ASSIGN] + ValuePieces(o, p.value), t, i);
    PieceThenRest(ASSIGN, ValuePieces(o, p.value), t, j);
    if NameReadsBack(p.key) {
      GoodKeyBadValue(e, o, b, s, m, p, t, i);
    } else {
      BadKeyFails(e, o, b, s, m, p, t, i);
    }
  }

  lemma GoodKeyBadValue(e: Env, o: Options, b: Config, s: Spot, m: Node, p: Prop, t: Bytes, i: nat)
    requires Reads(e) && Idle(b) && Settled(e, s) == Some(m) && o.spelling == SPELLED && !o.preserve
    requires NameReadsBack(p.key) && !ValueTextOk(p.value) && ValueSpellable(p.value)
    requires var key := TextPiece(p.key).data; var j := i + |key|;
      StandsAt(key, t, i) && StandsAt(ASSIGN.data, t, j)
      && StandsAt(Render(ValuePieces(o, p.value)), t, j + 1) && Ends(t, j + 1 + |Render(ValuePieces(o, p.value))|)
    ensures Fails(e, Spaced(b, s), t, i)
  {
    hide Step, Fresh, Spaced, Fails, Idle, Settled, TextPiece, NameReadsBack, Ends, Render, Reads, ValueSpellable,
      ValueTextOk, ValuePieces, Scans, Lexer.NextToken;
    var key := TextPiece(p.key);
    var j := i + |key.data|;
    var tok := Token(key.id, key.data, i);
    FirstByte(ASSIGN.data, t, j);
    KeyScans(p.key, t, i);
    NameDecodes(e, p.key, i);
    PropValueFails(e, o, b, m, tok, p.value, t, j + 1);
    EqualsThen(e, b, m, tok, t, j);
    PlainEntryReads(e, b, s, tok, m);
    WordThen(e, Spaced(b, s), Fresh(b, Spot(m, tok, NO_TOKEN)), key, t, i);
  }

  /** One token that is read as it was printed, and then a failure. */
  lemma WordThen(e: Env, c: Config, d: Config, p: Piece, t: Bytes, i: nat)
    requires p.data != [] && StandsAt(p.data, t, i) && (forall b :: Lexer.NextToken(t, i, b) == Lexer.Lexed(p.id, i + |p.data|, true))
    requires Step(e, c, Token(p.id, p.data, i)) == Some(d) && Fails(e, d, t, i + |p.data|)
    ensures Fails(e, c, t, i)
  {
    hide Step, Fails, Lexer.NextToken;
    TokenFails(e, c, t, i);
  }

  lemma KeyScans(k: Bytes, t: Bytes, i: nat)
    requires NameReadsBack(k) && StandsAt(TextPiece(k).data, t, i) && i + |TextPiece(k).data| < |t| && t[i + |TextPiece(k).data|] == EQ
    ensures TextPiece(k).data != []
    ensures forall b :: Lexer.NextToken(t, i, b) == Lexer.Lexed(TextPiece(k).id, i + |TextPiece(k).data|, true)
  {
    hide Lexer.NextToken, TextPiece, NameReadsBack;
    TextPieceScans(k, EQ);
  }

  // ----- what an entry starts with -----

  lemma ParenStartsEntry(t: Bytes, i: nat)
    requires i < |t| && (t[i] == '(' as int || t[i] == '{' as int)
    ensures EntryAt(t, i)
  {
    AsciiDecodes(t, i);
    hide Lexer.BlankToken, Lexer.SlashToken, Lexer.HashToken, Lexer.ZeroToken, Lexer.DecimalNumber, Lexer.Identifier;
  }

  lemma ValueStarts(o: Options, v: Value, t: Bytes, i: nat)
    requires o.spelling == SPELLED && !o.preserve && ValueSpellable(v)
    requires StandsAt(Render(ValuePieces(o, v)), t, i) && Ends(t, i + |Render(ValuePieces(o, v))|)
    ensures EntryAt(t, i)
  {
    hide Render, Scans, StartsWord, TypeReadsBack, Lexer.NextToken, TypePieces, EntryAt;
    var p := ContentPiece(v.content);
    if v.typ != [] {
      var rest := [TypePiece(v.typ), PAREN_SHUT] + [p];
      assert ValuePieces(o, v) == [PAREN_OPEN] + rest by { TypedShape(o, v); }
      PieceThenRest(PAREN_OPEN, rest, t, i);
      FirstByte(PAREN_OPEN.data, t, i);
      ParenStartsEntry(t, i);
    } else {
      NoType(o);
      assert ValuePieces(o, v) == [p];
      RenderOnePiece(p);
      ContentStarts(v, t, i);
    }
  }

  lemma TypedShape(o: Options, v: Value)
    requires o.spelling == SPELLED && !o.preserve && v.typ != [] && KeepsType(v)
    ensures ValuePieces(o, v) == [PAREN_OPEN] + ([TypePiece(v.typ), PAREN_SHUT] + [ContentPiece(v.content)])
  {}

  lemma ContentStarts(v: Value, t: Bytes, i: nat)
    requires ValueSpellable(v) && StandsAt(ContentPiece(v.content).data, t, i) && Ends(t, i + |ContentPiece(v.content).data|)
    ensures EntryAt(t, i)
  {
    hide Scans, StartsWord, TypeReadsBack, Lexer.NextToken, Strings.Quoted, QuotedReadsBack;
    var p := ContentPiece(v.content);
    if v.content.Text? {
      QuotedHead(v.content.chars, t, i);
    } else {
      ValueIsPrintable(v);
      ContentScans(v);
      WordIsNotEmpty(p.data);
      ScannedPiece(p, t, i, t[i + |p.data|]);
    }
  }

  lemma QuotedHead(s: Bytes, t: Bytes, i: nat)
    requires StandsAt(Strings.Quoted(s), t, i)
    ensures EntryAt(t, i)
  {
    QuotedIsNotEmpty(s);
    FirstByte(Strings.Quoted(s), t, i);
    QuoteStartsEntry(t, i);
  }

  /** A name or key in front of one of the characters that the writer puts behind them. */
  lemma TextStarts(s: Bytes, t: Bytes, i: nat)
    requires StandsAt(TextPiece(s).data, t, i)
    requires var end := i + |TextPiece(s).data|; end < |t| && t[end] in {SP, NL, EQ}
    ensures EntryAt(t, i)
  {
    if IsBareName(s) { BareStartsEntry(s, t, i); } else { QuotedHead(s, t, i); }
  }

  lemma PropStarts(o: Options, p: Prop, t: Bytes, i: nat)
    requires StandsAt(Render([TextPiece(p.key)] + ([ASSIGN] + ValuePieces(o, p.value))), t, i)
    ensures EntryAt(t, i)
  {
    hide Render, TextPiece, EntryAt;
    PieceThenRest(TextPiece(p.key), [ASSIGN] + ValuePieces(o, p.value), t, i);
    PieceThenRest(ASSIGN, ValuePieces(o, p.value), t, i + |TextPiece(p.key).data|);
    FirstByte(ASSIGN.data, t, i + |TextPiece(p.key).data|);
    TextStarts(p.key, t, i);
  }

  // ----- the entries of a node -----

  /** From i on, whatever the node holds so far and whichever entry is pending, the rest fails. */
  ghost predicate Hopeless(e: Env, b: Config, t: Bytes, i: nat) {
    i <= |t| && forall s: Spot :: Settled(e, s).Some? ==> Fails(e, Fresh(b, s), t, i)
  }

  /** One argument, read or not. */
  lemma ArgFails(e: Env, o: Options, b: Config, v: Value, t: Bytes, i: nat)
    requires Reads(e) && Idle(b) && o.spelling == SPELLED && !o.preserve && ValueSpellable(v)
    requires var ps := [SPACE] + ValuePieces(o, v); var end := i + |Render(ps)|;
      StandsAt(Render(ps), t, i) && Follows(t, end) && (ValueTextOk(v) ==> Hopeless(e, b, t, end))
    ensures Follows(t, i) && Hopeless(e, b, t, i)
  {
    hide Step, Fresh, Spaced, Fails, Idle, Settled, ValueTextOk, Render, Reads, ValueSpellable, ValuePieces, EntryAt, Lexes, Run,
      ReadableValue, ValueReadsBack;
    var ps := [SPACE] + ValuePieces(o, v);
    var end := i + |Render(ps)|;
    PieceThenRest(SPACE, ValuePieces(o, v), t, i);
    FirstByte(SPACE.data, t, i);
    ValueStarts(o, v, t, i + 1);
    forall s: Spot | Settled(e, s).Some? ensures Fails(e, Fresh(b, s), t, i) {
      var m := Settled(e, s).value;
      if ValueTextOk(v) {
        ValueIsPrintable(v);
        ValueLexes(o, v, t, i + 1);
        SpaceLexes(ValuePieces(o, v), t, i);
        ValueIsReadable(e, o, v);
        var s', v' := ArgReads(e, o, b, s, m, v, TokensAt(ps, i));
        ForwardFails(e, Fresh(b, s), t, i, ps, end, Fresh(b, s'));
      } else {
        BadArgFails(e, o, b, s, m, v, t, i + 1);
        SpaceReads(e, b, s, Token(Whitespace, SPACE.data, i));
        SpaceThen(e, Fresh(b, s), Spaced(b, s), t, i);
      }
    }
  }

  lemma {:induction false} ArgsFail(e: Env, o: Options, b: Config, args: seq<Value>, t: Bytes, i: nat)
    requires Reads(e) && Idle(b) && o.spelling == SPELLED && !o.preserve && forall k :: 0 <= k < |args| ==> ValueSpellable(args[k])
    requires var end := i + |Render(ArgPieces(o, args))|;
      StandsAt(Render(ArgPieces(o, args)), t, i) && Follows(t, end)
    ensures Follows(t, i)
    ensures var end := i + |Render(ArgPieces(o, args))|; (ArgsOk(args) ==> Hopeless(e, b, t, end)) ==> Hopeless(e, b, t, i)
    decreases |args|
  {
    hide Follows, Hopeless, Idle, ValueTextOk, Render, Reads, ValueSpellable, ValuePieces;
    if args == [] {
      NoArgs(o);
    } else {
      var k := |args| - 1;
      var done, last := ArgPieces(o, args[..k]), [SPACE] + ValuePieces(o, args[k]);
      assert ArgPieces(o, args) == done + last;
      StandsAppend(done, last, t, i);
      assert ArgsOk(args) <==> ArgsOk(args[..k]) && ValueTextOk(args[k]);
      ArgFollows(o, args[k], t, i + |Render(done)|);
      if ArgsOk(args[..k]) && (ArgsOk(args) ==> Hopeless(e, b, t, i + |Render(done + last)|)) {
        ArgFails(e, o, b, args[k], t, i + |Render(done)|);
      }
      ArgsFail(e, o, b, args[..k], t, i);
    }
  }

  lemma ArgFollows(o: Options, v: Value, t: Bytes, i: nat)
    requires o.spelling == SPELLED && !o.preserve && ValueSpellable(v)
    requires var ps := [SPACE] + ValuePieces(o, v); StandsAt(Render(ps), t, i) && Follows(t, i + |Render(ps)|)
    ensures Follows(t, i)
  {
    hide Render, ValueSpellable, ValuePieces, EntryAt;
    PieceThenRest(SPACE, ValuePieces(o, v), t, i);
    FirstByte(SPACE.data, t, i);
    ValueStarts(o, v, t, i + 1);
  }

  /** One property, read or not. */
  lemma PropFails(e: Env, o: Options, b: Config, p: Prop, t: Bytes, i: nat)
    requires Reads(e) && Idle(b) && o.spelling == SPELLED && !o.preserve && ValueSpellable(p.value)
    requires var ps := [SPACE, TextPiece(p.key), ASSIGN] + ValuePieces(o, p.value); var end := i + |Render(ps)|;
      StandsAt(Render(ps), t, i) && Follows(t, end) && (PropOk(p) ==> Hopeless(e, b, t, end))
    ensures Follows(t, i) && Hopeless(e, b, t, i)
  {
    hide Step, Fresh, Spaced, Fails, Idle, Settled, ValueTextOk, NameReadsBack, Render, Reads, ValueSpellable, ValuePieces,
      TextPiece, EntryAt, Lexes, Run, ReadableValue, ReadableKey, ValueReadsBack;
    var rest := [TextPiece(p.key)] + ([ASSIGN] + ValuePieces(o, p.value));
    var ps := [SPACE, TextPiece(p.key), ASSIGN] + ValuePieces(o, p.value);
    var end := i + |Render(ps)|;
    assert ps == [SPACE] + rest;
    PropFollows(o, p, t, i);
    PieceThenRest(SPACE, rest, t, i);
    forall s: Spot | Settled(e, s).Some? ensures Fails(e, Fresh(b, s), t, i) {
      var m := Settled(e, s).value;
      if PropOk(p) {
        ValueIsPrintable(p.value);
        PropLexes(o, p, t, i);
        ValueIsReadable(e, o, p.value);
        KeyIsReadable(e, o, p.key);
        var s', v' := PropReads(e, o, b, s, m, p, TokensAt(ps, i));
        ForwardFails(e, Fresh(b, s), t, i, ps, end, Fresh(b, s'));
      } else {
        BadPropFails(e, o, b, s, m, p, t, i + 1);
        SpaceReads(e, b, s, Token(Whitespace, SPACE.data, i));
        SpaceThen(e, Fresh(b, s), Spaced(b, s), t, i);
      }
    }
  }

  lemma ValueIsReadable(e: Env, o: Options, v: Value)
    requires Reads(e) && o.spelling == SPELLED && ValueReadsBack(v)
    ensures ReadableValue(e, o, v)
  {
    hide ValueReadsBack;
    ContentDecodes(e.source, o, v);
  }

  lemma NameDecodes(e: Env, s: Bytes, i: nat)
    requires Reads(e) && NameReadsBack(s)
    ensures IsIdentifier(TextPiece(s).id) && e.decode(Token(TextPiece(s).id, TextPiece(s).data, i)) == Some(Text(s))
  {
    hide NameReadsBack, TextPiece;
    TextDecodes(e.source, s);
  }

  lemma KeyIsReadable(e: Env, o: Options, k: Bytes)
    requires Reads(e) && o.spelling == SPELLED && NameReadsBack(k)
    ensures ReadableKey(e, o, k)
  {
    hide NameReadsBack, TextPiece;
    TextDecodes(e.source, k);
    assert KeyText(Text(k)) == k;
  }

  lemma PropFollows(o: Options, p: Prop, t: Bytes, i: nat)
    requires var ps := [SPACE, TextPiece(p.key), ASSIGN] + ValuePieces(o, p.value); StandsAt(Render(ps), t, i)
    ensures Follows(t, i) && t[i] == SP
  {
    hide Render, ValuePieces, TextPiece, EntryAt;
    var rest := [TextPiece(p.key)] + ([ASSIGN] + ValuePieces(o, p.value));
    assert [SPACE, TextPiece(p.key), ASSIGN] + ValuePieces(o, p.value) == [SPACE] + rest;
    PieceThenRest(SPACE, rest, t, i);
    FirstByte(SPACE.data, t, i);
    PropStarts(o, p, t, i + 1);
  }

  lemma {:induction false} PropsFail(e: Env, o: Options, b: Config, props: seq<Prop>, t: Bytes, i: nat)
    requires Reads(e) && Idle(b) && o.spelling == SPELLED && !o.preserve
    requires forall k :: 0 <= k < |props| ==> ValueSpellable(props[k].value)
    requires var end := i + |Render(PropPieces(o, props))|;
      StandsAt(Render(PropPieces(o, props)), t, i) && Follows(t, end)
    ensures Follows(t, i)
    ensures var end := i + |Render(PropPieces(o, props))|; (PropsOk(props) ==> Hopeless(e, b, t, end)) ==> Hopeless(e, b, t, i)
    decreases |props|
  {
    hide Follows, Hopeless, Idle, PropOk, Render, Reads, ValueSpellable, ValuePieces, TextPiece;
    if props == [] {
      NoArgs(o);
    } else {
      var k := |props| - 1;
      var done := PropPieces(o, props[..k]);
      var last := [SPACE, TextPiece(props[k].key), ASSIGN] + ValuePieces(o, props[k].value);
      assert PropPieces(o, props) == done + last;
      StandsAppend(done, last, t, i);
      assert PropsOk(props) <==> PropsOk(props[..k]) && PropOk(props[k]);
      PropFollows(o, props[k], t, i + |Render(done)|);
      if PropsOk(props[..k]) && (PropsOk(props) ==> Hopeless(e, b, t, i + |Render(done + last)|)) {
        PropFails(e, o, b, props[k], t, i + |Render(done)|);
      }
      PropsFail(e, o, b, props[..k], t, i);
    }
  }

  // ----- the name of a node -----

  lemma NameRefuses(e: Env, b: Config, typ: Token, t: Token)
    requires Idle(b) && (t.id.Decimal? || (IsIdentifier(t.id) && e.decode(t) == None))
    ensures Step(e, b.(typ := typ), t) == None
  {}

  lemma NameFails(e: Env, b: Config, typ: Token, s: Bytes, t: Bytes, i: nat)
    requires Reads(e) && Idle(b) && (typ.Valid() || typ == NO_TOKEN)
    requires var end := i + |TextPiece(s).data|;
      StandsAt(TextPiece(s).data, t, i) && Ends(t, end) && (NameReadsBack(s) ==> Hopeless(e, b, t, end))
    ensures Fails(e, b.(typ := typ), t, i)
  {
    hide Step, Fresh, Fails, Idle, Reads, NameReadsBack, IsBareName, Strings.Quoted, Lexer.NextToken, Lexer.DecimalNumber, Scans;
    var p := TextPiece(s);
    var c := b.(typ := typ);
    var tok := Token(p.id, p.data, i);
    if NameReadsBack(s) {
      TextPieceScans(s, t[i + |p.data|]);
      WordIsNotEmpty(p.data);
      ScannedPiece(p, t, i, t[i + |p.data|]);
      NameDecodes(e, s, i);
      var v := ValueOf(e.decode, tok, NO_TOKEN).value;
      NameReads(e, b, tok, typ, v);
      var spot := Spot(Node(v, if typ.Valid() then typ.data else [], [], [], [], None), NO_TOKEN, NO_TOKEN);
      assert Settled(e, spot).Some?;
      TokenFails(e, c, t, i);
    } else if IsBareName(s) {
      BadBareIsNumberOrNothing(s, t, i);
      NumberIsNumeric(t, i);
      assert !IsNumeric(t[i + |s|]);
      var r := Lexer.DecimalNumber(t, i);
      if r.Lexed? { NameRefuses(e, b, typ, Token(Decimal, t[i..r.end], i)); }
      TokenFails(e, c, t, i);
    } else {
      NotQuotedBack(s);
      if e.decode(tok) == None { NameRefuses(e, b, typ, tok); }
      BadTextFails(e, c, s, t, i);
    }
  }

  lemma HeadFails(e: Env, o: Options, b: Config, n: Node, t: Bytes, i: nat)
    requires Reads(e) && Idle(b) && o.spelling == SPELLED && Spellable(n)
    requires StandsAt(Render(HeadPieces(o, n)), t, i)
    requires var end := i + |Render(HeadPieces(o, n))|;
      Ends(t, end) && (NameReadsBack(n.name.content.chars) ==> Hopeless(e, b, t, end))
    ensures Fails(e, b, t, i) && EntryAt(t, i)
  {
    hide Step, Fails, Idle, Reads, NameReadsBack, TextPiece, TypePiece, Render, Hopeless, Ends, EntryAt, Scans;
    var p := TextPiece(n.name.content.chars);
    NoType(o);
    assert HeadPieces(o, n) == TypePieces(o, n.typ) + [p] by {
      assert TypePieces(o, n.typ) + [] == TypePieces(o, n.typ);
    }
    StandsAppend(TypePieces(o, n.typ), [p], t, i);
    RenderOnePiece(p);
    var j := i + |Render(TypePieces(o, n.typ))|;
    var typ := if n.typ == [] then NO_TOKEN else Token(TypePiece(n.typ).id, n.typ, i + 1);
    NameFails(e, b, typ, n.name.content.chars, t, j);
    if n.typ == [] {
      TextEndStarts(n.name.content.chars, t, i);
      PlainIdle(b);
    } else {
      TypeLength(o, n.typ);
      NodeAnnotationOpens(e, b, Token(ParensOpen, PAREN_OPEN.data, i));
      NotContinued(b);
      TypeThen(e, o, b, b.(annotation := Wanted), n.typ, t, i);
      TypeStarts(o, n.typ, t, i);
    }
  }

  lemma TextEndStarts(s: Bytes, t: Bytes, i: nat)
    requires StandsAt(TextPiece(s).data, t, i) && Ends(t, i + |TextPiece(s).data|)
    ensures EntryAt(t, i)
  {
    hide TextPiece, EntryAt;
    TextStarts(s, t, i);
  }

  lemma PlainIdle(b: Config)
    requires Idle(b)
    ensures b.(typ := NO_TOKEN) == b
  {}

  lemma TypeStarts(o: Options, typ: Bytes, t: Bytes, i: nat)
    requires typ != [] && StandsAt(Render(TypePieces(o, typ)), t, i)
    ensures EntryAt(t, i)
  {
    hide Render, EntryAt;
    assert TypePieces(o, typ) == [PAREN_OPEN] + [o.spelling.typeName(typ), PAREN_SHUT];
    PieceThenRest(PAREN_OPEN, [o.spelling.typeName(typ), PAREN_SHUT], t, i);
    FirstByte(PAREN_OPEN.data, t, i);
    ParenStartsEntry(t, i);
  }

  /** The indentation changes nothing. */
  lemma IndentThen(e: Env, o: Options, depth: nat, b: Config, t: Bytes, i: nat)
    requires Idle(b) && Multiline.BlankFrom(o.indent, 0)
    requires var indent := Render(Indentation(o, depth)); var j := i + |indent|;
      StandsAt(indent, t, i) && j < |t| && EntryAt(t, j) && Fails(e, b, t, j)
    ensures Fails(e, b, t, i)
  {
    hide Step, Fails, EntryAt, Multiline.BlankFrom, Idle, Render, Lexer.PeekAt;
    if Indentation(o, depth) == [] {
      LexesNothing(t, i);
    } else {
      var s := Times(o.indent, depth);
      IndentIsBlank(o.indent, depth);
      RenderOnePiece(Piece(Whitespace, s));
      EntryIsNoSpace(t, i + |s|);
      BlankReads(e, b, Token(Whitespace, s, i));
      BlankThen(e, b, b, s, t, i);
    }
  }

  // ----- blocks, nodes and documents -----

  ghost predicate CanSpell(o: Options, n: Node) {
    o.spelling == SPELLED && !o.preserve && Multiline.BlankFrom(o.indent, 0) && Spellable(n)
  }

  lemma ChildrenSpellable(o: Options, n: Node)
    requires CanSpell(o, n)
    ensures forall k :: 0 <= k < |n.children| ==> CanSpell(o, n.children[k])
  {}

  predicate AllTextsOk(nodes: seq<Node>) { forall k :: 0 <= k < |nodes| ==> TextsOk(nodes[k]) }

  lemma BlockFollows(o: Options, depth: nat, n: Node, t: Bytes, i: nat)
    requires StandsAt(Render(BlockPieces(o, depth, n)), t, i)
    requires var end := i + |Render(BlockPieces(o, depth, n))|; end < |t| && t[end] == NL
    ensures Follows(t, i) && Ends(t, i)
  {
    hide Render, NodesPieces, Indentation, BlockPieces, EntryAt;
    BlockShape(o, depth, n);
    if n.children == [] {
      LexesNothing(t, i);
    } else {
      var rest := [LINE_FEED] + (NodesPieces(o, depth + 1, n.children) + (Indentation(o, depth) + [SHUT]));
      PieceThenRest(SPACE, [OPEN] + rest, t, i);
      PieceThenRest(OPEN, rest, t, i + 1);
      FirstByte(SPACE.data, t, i);
      FirstByte(OPEN.data, t, i + 1);
      ParenStartsEntry(t, i + 1);
    }
  }

  /** A child that does not read back makes its block fail. */
  lemma BlockFails(e: Env, o: Options, depth: nat, b: Config, n: Node, t: Bytes, i: nat)
    requires Reads(e) && Idle(b) && CanSpell(o, n) && !AllTextsOk(n.children)
    requires StandsAt(Render(BlockPieces(o, depth, n)), t, i)
    ensures Hopeless(e, b, t, i)
    decreases n, 0
  {
    hide Step, Fails, Fresh, Spaced, Settled, Idle, Reads, Render, NodesPieces, Indentation, BlockPieces, CanSpell, EntryAt,
      AllTextsOk, Entered, Lexer.NextToken, Lexes;
    BlockShape(o, depth, n);
    NoNodesOk();
    var inner := NodesPieces(o, depth + 1, n.children);
    var rest := inner + (Indentation(o, depth) + [SHUT]);
    PieceThenRest(SPACE, [OPEN] + ([LINE_FEED] + rest), t, i);
    PieceThenRest(OPEN, [LINE_FEED] + rest, t, i + 1);
    PieceThenRest(LINE_FEED, rest, t, i + 2);
    StandsAppend(inner, Indentation(o, depth) + [SHUT], t, i + 3);
    FirstByte(SPACE.data, t, i);
    FirstByte(OPEN.data, t, i + 1);
    ParenStartsEntry(t, i + 1);
    ChildrenSpellable(o, n);
    forall s: Spot | Settled(e, s).Some? ensures Fails(e, Fresh(b, s), t, i) {
      var m := Settled(e, s).value;
      var a := Entered(b, m, if s.ident.Valid() then AtPostWS else AtParams, i + 1);
      OpenReads(e, b, s, m, Token(BraceOpen, OPEN.data, i + 1));
      NodesFail(e, o, depth + 1, a, n.children, t, i + 3);
      BlankReads(e, a, Token(Newline, LINE_FEED.data, i + 2));
      MarkThen(e, a, a, LINE_FEED, t, i + 2);
      MarkThen(e, Spaced(b, s), a, OPEN, t, i + 1);
      SpaceReads(e, b, s, Token(Whitespace, SPACE.data, i));
      SpaceThen(e, Fresh(b, s), Spaced(b, s), t, i);
    }
  }

  lemma NoNodesOk()
    ensures AllTextsOk([])
  {}

  /** One of the writer's marks, and then a failure. */
  lemma MarkThen(e: Env, c: Config, d: Config, p: Piece, t: Bytes, i: nat)
    requires p in {LINE_FEED, OPEN} && StandsAt(p.data, t, i)
    requires Step(e, c, Token(p.id, p.data, i)) == Some(d) && Fails(e, d, t, i + 1)
    ensures Fails(e, c, t, i)
  {
    hide Step, Fails, Lexer.NextToken;
    MarkScans(p, t, i);
    TokenFails(e, c, t, i);
  }

  lemma SpelledParts(o: Options, n: Node)
    requires CanSpell(o, n)
    ensures o.spelling == SPELLED && !o.preserve && Multiline.BlankFrom(o.indent, 0) && Spellable(n) && n.name.content.Text?
    ensures forall k :: 0 <= k < |n.args| ==> ValueSpellable(n.args[k])
    ensures forall k :: 0 <= k < |n.props| ==> ValueSpellable(n.props[k].value)
  {}

  lemma TextsParts(n: Node)
    requires !TextsOk(n) && n.name.content.Text? && NameReadsBack(n.name.content.chars) && ArgsOk(n.args) && PropsOk(n.props)
    ensures !AllTextsOk(n.children)
  {}

  /** A name, a key or a text anywhere in the node that does not read back makes its text fail. */
  lemma NodeFails(e: Env, o: Options, depth: nat, b: Config, n: Node, t: Bytes, i: nat)
    requires Reads(e) && Idle(b) && CanSpell(o, n) && !TextsOk(n)
    requires StandsAt(Render(NodePieces(o, depth, n)), t, i)
    ensures Fails(e, b, t, i)
    decreases n, 1
  {
    hide Step, Fails, Hopeless, Follows, Ends, Idle, Reads, Render, Indentation, HeadPieces, ArgPieces, PropPieces, BlockPieces,
      NodePieces, CanSpell, Spellable, ValueSpellable, EntryAt, TextsOk, ArgsOk, PropsOk, NameReadsBack, AllTextsOk,
      Multiline.BlankFrom;
    NodeShape(o, depth, n);
    SpelledParts(o, n);
    var indent, head, args := Indentation(o, depth), HeadPieces(o, n), ArgPieces(o, n.args);
    var props, block := PropPieces(o, n.props), BlockPieces(o, depth, n);
    StandsAppend(indent, head + (args + (props + (block + [LINE_FEED]))), t, i);
    var i1 := i + |Render(indent)|;
    StandsAppend(head, args + (props + (block + [LINE_FEED])), t, i1);
    var i2 := i1 + |Render(head)|;
    StandsAppend(args, props + (block + [LINE_FEED]), t, i2);
    var i3 := i2 + |Render(args)|;
    StandsAppend(props, block + [LINE_FEED], t, i3);
    var i4 := i3 + |Render(props)|;
    StandsAppend(block, [LINE_FEED], t, i4);
    RenderOnePiece(LINE_FEED);
    FirstByte(LINE_FEED.data, t, i4 + |Render(block)|);
    BlockFollows(o, depth, n, t, i4);
    if NameReadsBack(n.name.content.chars) && ArgsOk(n.args) && PropsOk(n.props) {
      TextsParts(n);
      BlockFails(e, o, depth, b, n, t, i4);
    }
    EntriesFail(e, o, b, n, t, i1, i2, i3, i4);
    IndentThen(e, o, depth, b, t, i);
  }

  lemma EntriesFail(e: Env, o: Options, b: Config, n: Node, t: Bytes, i1: nat, i2: nat, i3: nat, i4: nat)
    requires Reads(e) && Idle(b) && CanSpell(o, n) && Follows(t, i4)
    requires StandsAt(Render(HeadPieces(o, n)), t, i1) && i2 == i1 + |Render(HeadPieces(o, n))|
    requires StandsAt(Render(ArgPieces(o, n.args)), t, i2) && i3 == i2 + |Render(ArgPieces(o, n.args))|
    requires StandsAt(Render(PropPieces(o, n.props)), t, i3) && i4 == i3 + |Render(PropPieces(o, n.props))|
    requires n.name.content.Text? && NameReadsBack(n.name.content.chars) && ArgsOk(n.args) && PropsOk(n.props) ==> Hopeless(e, b, t, i4)
    ensures Fails(e, b, t, i1) && EntryAt(t, i1)
  {
    hide Fails, Hopeless, Follows, Ends, Idle, Reads, Render, HeadPieces, ArgPieces, PropPieces, CanSpell, Spellable,
      ValueSpellable, EntryAt, ArgsOk, PropsOk, NameReadsBack;
    SpelledParts(o, n);
    PropsFail(e, o, b, n.props, t, i3);
    ArgsFail(e, o, b, n.args, t, i2);
    FollowsEnds(t, i2);
    HeadFails(e, o, b, n, t, i1);
  }

  lemma FollowsEnds(t: Bytes, i: nat)
    requires Follows(t, i)
    ensures Ends(t, i)
  {}

  lemma NodesFail(e: Env, o: Options, depth: nat, b: Config, nodes: seq<Node>, t: Bytes, i: nat)
    requires Reads(e) && Idle(b) && (forall k :: 0 <= k < |nodes| ==> CanSpell(o, nodes[k])) && !AllTextsOk(nodes)
    requires StandsAt(Render(NodesPieces(o, depth, nodes)), t, i)
    ensures Fails(e, b, t, i)
    decreases nodes
  {
    hide Step, Fails, Idle, Reads, Render, NodePieces, CanSpell, Spellable, Multiline.BlankFrom, TextsOk, Lexes, Run;
    if nodes != [] {
      var k := |nodes| - 1;
      var done, last := NodesPieces(o, depth, nodes[..k]), NodePieces(o, depth, nodes[k]);
      assert NodesPieces(o, depth, nodes) == done + last;
      StandsAppend(done, last, t, i);
      if AllTextsOk(nodes[..k]) {
        var j := i + |Render(done)|;
        SpelledParts(o, nodes[k]);
        var d := GoodNodes(e, o, depth, b, nodes[..k], t, i);
        NodeFails(e, o, depth, d, nodes[k], t, j);
        ForwardFails(e, b, t, i, done, j, d);
      } else {
        NodesFail(e, o, depth, b, nodes[..k], t, i);
      }
    }
  }

  lemma GoodNodes(e: Env, o: Options, depth: nat, b: Config, nodes: seq<Node>, t: Bytes, i: nat) returns (d: Config)
    requires Reads(e) && Idle(b) && (forall k :: 0 <= k < |nodes| ==> CanSpell(o, nodes[k])) && AllTextsOk(nodes)
    requires StandsAt(Render(NodesPieces(o, depth, nodes)), t, i) && !o.preserve
    ensures Idle(d) && Run(e, b, TokensAt(NodesPieces(o, depth, nodes), i)) == Some(d)
    ensures Lexes(t, i, NodesPieces(o, depth, nodes), i + |Render(NodesPieces(o, depth, nodes))|)
  {
    hide Step, Fails, Idle, Reads, Render, NodesPieces, CanSpell, CanPrint, TextsOk, Lexes, Run, Readable;
    forall k | 0 <= k < |nodes| ensures CanPrint(o, nodes[k]) && Readable(e, o, nodes[k]) {
      SpelledIsReadable(e, o, nodes[k]);
    }
    NodesLex(o, depth, nodes, t, i);
    var ms;
    d, ms := NodesRead(e, o, depth, b, nodes, TokensAt(NodesPieces(o, depth, nodes), i));
    GrownIdle(b, d, ms);
  }

  lemma SpelledIsReadable(e: Env, o: Options, n: Node)
    requires Reads(e) && CanSpell(o, n) && TextsOk(n)
    ensures CanPrint(o, n) && Readable(e, o, n)
  {
    hide Printable, Spellable, TextsOk, Readable;
    PrintableIsBoth(n);
    PrintableIsReadable(e.source, o, n);
  }

  /** The text of trees one of whose names, keys or texts does not read back is refused: it is never read as other trees. */
  lemma OthersAreRefused(o: Options, nodes: seq<Node>)
    requires o.spelling == SPELLED && !o.preserve && forall k :: 0 <= k < |nodes| ==> CanSpell(o, nodes[k])
    requires !AllTextsOk(nodes)
    ensures var text := DocumentOutput(o, Document(nodes, [])); Kdl.Parsed(Reader(text).decode, text) == None
  {
    hide Step, Idle, Render, NodesPieces, CanSpell, AllTextsOk, Lexer.ScanFrom;
    var text := DocumentOutput(o, Document(nodes, []));
    var e := Reader(text);
    OutputIsRendered(o, nodes);
    assert text == Render(NodesPieces(o, 0, nodes));
    assert text[0..|text|] == text;
    InitialIsIdle();
    NodesFail(e, o, 0, INITIAL, nodes, text, 0);
    assert Kdl.Remaining(e, INITIAL, Lexer.ScanFrom(text, 0, false)) == None;
  }

  lemma InitialIsIdle()
    ensures Idle(INITIAL)
  {}

  /**
   * Main result: for all trees whose types and literals are spelled as the parser spells them, the text that the formatting
   * writer prints is accepted, with the same trees read back, exactly when every name and key and every text in the trees,
   * at every depth, reads back from its own spelling; and otherwise it is refused.
   */
  lemma ReadsBackOrIsRefused(o: Options, nodes: seq<Node>)
    requires o.spelling == SPELLED && !o.preserve && forall k :: 0 <= k < |nodes| ==> CanSpell(o, nodes[k])
    ensures var text := DocumentOutput(o, Document(nodes, []));
      var parsed := Kdl.Parsed(Reader(text).decode, text);
      && (parsed.Some? <==> AllTextsOk(nodes))
      && (parsed.Some? ==> parsed.value.blocks == [] && EraseAll(Visible(parsed.value)) == EraseAll(nodes))
  {
    hide Step, Render, CanSpell, CanPrint, TextsOk, Lexer.ScanFrom, ParseAll, Visible, EraseAll, DocumentOutput;
    if AllTextsOk(nodes) {
      forall k | 0 <= k < |nodes| ensures CanPrint(o, nodes[k]) {
        SpelledIsReadable(Reader([]), o, nodes[k]);
      }
      PrintedTextReadsBack(o, nodes);
    } else {
      OthersAreRefused(o, nodes);
    }
  }
}
