// One number whose annotation the formatting writer loses, from its source to what is read again.
module LostAnnotation {
  import opened Basics
  import opened Tokens
  import opened Documents
  import opened Utf8
  import opened Generator
  import opened Machine
  import opened Printing
  import opened RoundTrip
  import opened Annotations
  import opened Reformatting
  import opened Spellings
  import Lexer
  import Multiline

  const N: Bytes := [0x6E]
  const U8: Bytes := [0x75, 0x38]
  const SIXTEEN: Bytes := [0x30, 0x78, 0x31, 0x30]

  /** A node with a hexadecimal number that has this annotation. */
  function Numbered(typ: Bytes): Node { Node(Value(Text(N), [], None), [], [Value(Literal(Hexadecimal, SIXTEEN), typ, None)], [], [], None) }

  lemma NamesReadBack()
    ensures NameReadsBack(N) && NameReadsBack(U8) && IsBareName(N) && IsBareName(U8)
  {
    AsciiDecodes(N, 0);
    AsciiDecodes(U8, 0);
    AsciiDecodes(U8, 1);
    assert BareFrom(U8, 1) && RunesFrom(U8, 1);
    assert |Lexer.TRUE| == 4 && |Lexer.FALSE| == 5 && |Lexer.NULL_WORD| == 4 && |Lexer.INF| == 3 && |Lexer.MINUS_INF| == 4 && |Lexer.NAN| == 3;
  }

  lemma HexTest(id: TokenID, n: nat, c: Rune)
    requires id.Hexadecimal?
    ensures Lexer.AfterPrefix(id)(n, c) <==> n < 2 || Lexer.Hex(c)
  {}

  lemma SixteenReadsBack()
    ensures LiteralReadsBack(Hexadecimal, SIXTEEN)
  {
    var t := SIXTEEN + [SP];
    AsciiDecodes(t, 0);
    AsciiDecodes(t, 1);
    AsciiDecodes(t, 2);
    AsciiDecodes(t, 3);
    AsciiDecodes(t, 4);
    var p := Lexer.AfterPrefix(Hexadecimal);
    assert t[0] == 0x30 && t[1] == 0x78 && t[2] == 0x31 && t[3] == 0x30 && t[4] == SP;
    HexTest(Hexadecimal, 2, 0x31);
    HexTest(Hexadecimal, 3, 0x30);
    HexTest(Hexadecimal, 4, SP);
    assert p(0, 0x30) && p(1, 0x78) && p(2, 0x31) && p(3, 0x30) && !p(4, SP);
    assert Lexer.SkipWhile(t, 4, 4, p) == 4;
    assert Lexer.SkipWhile(t, 3, 3, p) == 4;
    assert Lexer.SkipWhile(t, 2, 2, p) == 4;
    assert Lexer.SkipWhile(t, 1, 1, p) == 4;
    assert Lexer.NumericBase(t, 0, Hexadecimal) == Some(4);
    hide Lexer.SkipWhile, Lexer.DecimalNumber, LiteralReadsBack, Lexer.NumericBase;
    assert Lexer.NextToken(t, 0, true) == Lexer.Lexed(Hexadecimal, 4, true);
    LiteralReadsBackExactly(Hexadecimal, SIXTEEN);
  }

  lemma NumberedIsPrintable()
    ensures Printable(Numbered(U8)) && Printable(Numbered([]))
  {
    NamesReadBack();
    SixteenReadsBack();
    NoTypeReadsBack();
    hide NameReadsBack, IsBareName, TypeReadsBack, Scans, StartsWord;
    BareTypeReadsBack(U8);
  }

  /** The texts with and without the annotation. */
  function NumberedText(typ: Bytes): Bytes {
    N + [SP] + (if typ == [] then [] else PAREN_OPEN.data + typ + [RP]) + SIXTEEN + [NL]
  }

  lemma NumberedIsWritten(o: Options, typ: Bytes)
    requires o.spelling == SPELLED && !o.preserve
    ensures Formatted(o, [Numbered(typ)]) == NumberedText(typ)
  {
    var n := Numbered(typ);
    NamesReadBack();
    hide NodesOutput, NodePieces, Render, IsBareName, NameReadsBack;
    assert NodesOutput(o, [n]) == Render(NodePieces(o, 0, n)) by { OneNode(o, n); }
    NumberedPieces(o, typ);
    var number := [Piece(Hexadecimal, SIXTEEN), LINE_FEED];
    TypeText(o, typ);
    RenderAppend([Piece(BareIdentifier, N), SPACE], TypePieces(o, typ));
    RenderAppend([Piece(BareIdentifier, N), SPACE] + TypePieces(o, typ), number);
    PairText(Piece(BareIdentifier, N), SPACE);
    PairText(Piece(Hexadecimal, SIXTEEN), LINE_FEED);
  }

  lemma OneNode(o: Options, n: Node)
    requires !o.preserve
    ensures NodesOutput(o, [n]) == Render(NodePieces(o, 0, n))
  {
    hide NodePieces, Render;
    assert [n][..0] == [];
  }

  lemma NumberedPieces(o: Options, typ: Bytes)
    requires o.spelling == SPELLED && !o.preserve
    ensures NodePieces(o, 0, Numbered(typ)) == [Piece(BareIdentifier, N), SPACE] + TypePieces(o, typ) + [Piece(Hexadecimal, SIXTEEN), LINE_FEED]
  {
    NamesReadBack();
    hide IsBareName, NameReadsBack, TypePieces;
    var n := Numbered(typ);
    NoTypePieces(o);
    assert HeadPieces(o, n) == [Piece(BareIdentifier, N)];
    assert ValuePieces(o, n.args[0]) == TypePieces(o, typ) + [Piece(Hexadecimal, SIXTEEN)];
    assert ArgPieces(o, []) == [];
    assert n.args[..0] == [];
    assert ArgPieces(o, n.args) == [SPACE] + ValuePieces(o, n.args[0]);
  }

  lemma NoTypePieces(o: Options)
    ensures TypePieces(o, []) == []
  {}

  lemma TypeText(o: Options, typ: Bytes)
    requires o.spelling == SPELLED
    ensures Render(TypePieces(o, typ)) == if typ == [] then [] else PAREN_OPEN.data + typ + [RP]
  {
    if typ != [] { RenderThree(PAREN_OPEN, TypePiece(typ), PAREN_SHUT); }
  }

  lemma PairText(p: Piece, q: Piece)
    ensures Render([p, q]) == p.data + q.data
  {
    assert [p, q] == [p] + [q];
    RenderAppend([p], [q]);
    RenderOnePiece(p);
    RenderOnePiece(q);
  }

  /**
   * The annotated number parses; formatting what was parsed leaves the annotation out; and the result parses as well, to
   * another tree.
   */
  lemma AnnotationIsLost(o: Options)
    requires o.spelling == SPELLED && !o.preserve && Multiline.BlankFrom(o.indent, 0)
    ensures Shows(NumberedText(U8), [Numbered(U8)])
    ensures Formatted(o, Visible(Reread(NumberedText(U8)).value)) == NumberedText([])
    ensures Shows(NumberedText([]), [Numbered([])])
  {
    hide Printable, Multiline.BlankFrom, EraseAll, Visible, Formatted, Reread, WrittenAll, NodeSound, NumberedText, Numbered;
    NumberedIsPrintable();
    NumberedIsWritten(o, U8);
    NumberedIsWritten(o, []);
    NumberedErases(U8);
    NumberedErases([]);
    ReadsBackExactly(o, [Numbered(U8)]);
    ReadsBackExactly(o, [Numbered([])]);
    var vs := Visible(Reread(NumberedText(U8)).value);
    RereadIsSound(NumberedText(U8));
    HexadecimalLoses(vs);
    WrittenDecides(o, vs);
  }

  lemma NumberedErases(typ: Bytes)
    ensures EraseAll([Numbered(typ)]) == [Numbered(typ)] && WrittenAll([Numbered(typ)]) == [Numbered(typ)]
  {
    var n := Numbered(typ);
    assert [n][..0] == [];
    assert EraseValues(n.args) == n.args && EraseProps(n.props) == [] && EraseAll([]) == [];
    assert WrittenValues(n.args) == n.args && WrittenProps(n.props) == [] && WrittenAll([]) == [];
    assert Erase(n) == n && Written(n) == n;
    assert EraseAll([n]) == EraseAll([n][..0]) + [Erase(n)] && WrittenAll([n]) == WrittenAll([n][..0]) + [Written(n)];
  }

  /** What was parsed has the flag of a hexadecimal number. */
  lemma HexadecimalLoses(vs: seq<Node>)
    requires AllSound(vs) && EraseAll(vs) == [Numbered(U8)]
    ensures WrittenAll(vs) == [Numbered([])]
  {
    ErasedCount(vs);
    assert |vs| == 1;
    var v := vs[0];
    ErasedAt(vs, 0);
    WrittenAt(vs, 0);
    assert Erase(v) == Numbered(U8);
    ErasedCount(v.children);
    assert v.children == [];
    assert |EraseValues(v.args)| == |v.args| == 1 && |EraseProps(v.props)| == |v.props| == 0;
    assert EraseValues(v.args)[0] == EraseValue(v.args[0]);
    hide TypeReadsBack, LiteralReadsBack;
    assert ValueSound(v.args[0]);
    assert WrittenValues(v.args) == [WrittenValue(v.args[0])];
    assert WrittenProps(v.props) == [];
    assert WrittenAll(v.children) == [];
    assert WrittenAll(vs) == [Written(v)];
  }

  lemma WrittenDecides(o: Options, vs: seq<Node>)
    requires o.spelling == SPELLED && !o.preserve && WrittenAll(vs) == [Numbered([])]
    ensures Formatted(o, vs) == Formatted(o, [Numbered([])])
  {
    hide WrittenAll, DocumentOutput, Numbered;
    NumberedErases([]);
    WrittenDecidesText(o, vs, [Numbered([])]);
  }
}
