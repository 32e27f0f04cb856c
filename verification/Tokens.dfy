// Tokens, their classes, and what it means for a token list to tile the source.
module Tokens {
  import opened Basics

  datatype TokenID =
    | Unknown | Newline | Whitespace | MultiLineComment | SingleLineComment | TokenComment | TypeSpec
    | Decimal | Hexadecimal | Octal | Binary | Boolean | Null | BareIdentifier | SuffixedDecimal
    | RawString | QuotedString | MultilineString | MultilineRawString | FloatKeyword
    | BraceOpen | BraceClose | ParensOpen | ParensClose | Equals | Semicolon | Continuation | EOF
    | ClassWhitespace | ClassValue | ClassIdentifier | ClassNonStringValue | ClassNumber | ClassString
    | ClassTerminator | ClassEndOfLine | ClassComment

  /** The classes of a token ID, in the order in which the parser tries them. */
  function Classes(id: TokenID): seq<TokenID> {
    match id
    case Newline => [ClassTerminator, ClassWhitespace, ClassEndOfLine]
    case Whitespace => [ClassWhitespace]
    case MultiLineComment | SingleLineComment => [ClassComment]
    case Decimal | Hexadecimal | Octal | Binary | SuffixedDecimal => [ClassNumber, ClassValue, ClassNonStringValue]
    case Boolean | Null | FloatKeyword => [ClassValue, ClassNonStringValue]
    case BareIdentifier => [ClassValue, ClassIdentifier]
    case RawString | QuotedString | MultilineString | MultilineRawString => [ClassValue, ClassString, ClassIdentifier]
    case Semicolon => [ClassTerminator]
    case EOF => [ClassTerminator, ClassEndOfLine]
    case _ => []
  }

  predicate IsString(id: TokenID) {
    id.RawString? || id.QuotedString? || id.MultilineString? || id.MultilineRawString?
  }

  predicate IsIdentifier(id: TokenID) {
    IsString(id) || id.BareIdentifier?
  }

  predicate IsNonStringValue(id: TokenID) {
    id.Decimal? || id.Hexadecimal? || id.Octal? || id.Binary? || id.SuffixedDecimal? || id.Boolean? || id.Null? || id.FloatKeyword?
  }

  predicate IsValue(id: TokenID) {
    IsIdentifier(id) || IsNonStringValue(id)
  }

  predicate IsComment(id: TokenID) {
    id.MultiLineComment? || id.SingleLineComment?
  }

  predicate IsTerminator(id: TokenID) {
    id.Newline? || id.Semicolon? || id.EOF?
  }

  datatype Token = Token(id: TokenID, data: Bytes, offset: nat) {
    predicate Valid() { !id.Unknown? }
  }

  /** The cleared token. */
  const NO_TOKEN := Token(Unknown, [], 0)
  /** The token that ends every run; it carries neither data nor a useful offset. */
  const EOF_TOKEN := Token(EOF, [], 0)

  /** The tokens cover source[from..to] without gap or overlap; none is empty and none is EOF. */
  predicate Tiles(source: Bytes, tokens: seq<Token>, from: nat, to: nat)
    decreases |tokens|
  {
    if tokens == [] then
      from == to
    else
      var t := tokens[0];
      && t.offset == from
      && t.data != []
      && !t.id.EOF?
      && from + |t.data| <= to <= |source|
      && t.data == source[from..from + |t.data|]
      && Tiles(source, tokens[1..], from + |t.data|, to)
  }
}
