// What the scanner reads, as functions of the source and a byte offset.
module Lexer {
  import opened Basics
  import opened Tokens
  import opened Utf8

  /** The rune at an offset: none at the end, an error if it is malformed or U+FFFD. */
  datatype Peek = AtEof | Invalid | Rune(c: Rune, size: nat)

  function PeekAt(s: Bytes, i: nat): (p: Peek)
    requires i <= |s|
    ensures p.AtEof? <==> i == |s|
    ensures p.Rune? ==> 0 < p.size && i + p.size <= |s| && p == Rune(DecodeAt(s, i).c, DecodeAt(s, i).size)
  {
    var d := DecodeAt(s, i);
    if d.size == 0 then AtEof else if d.c == RUNE_ERROR then Invalid else Rune(d.c, d.size)
  }

  predicate At(s: Bytes, i: nat, c: Rune) {
    i <= |s| && PeekAt(s, i).Rune? && PeekAt(s, i).c == c
  }

  type Test = (nat, Rune) -> bool

  /** Skips runes while p accepts them; p is told how many came before. Stops at the end or at an invalid rune. */
  function SkipWhile(s: Bytes, i: nat, n: nat, p: Test): (j: nat)
    requires i <= |s|
    ensures i <= j <= |s|
    decreases |s| - i
  {
    match PeekAt(s, i)
    case Rune(c, size) => if p(n, c) then SkipWhile(s, i + size, n + 1, p) else i
    case _ => i
  }

  /** Skips runes until stop accepts one, or the end, or an invalid rune. */
  function SkipUntil(s: Bytes, i: nat, stop: Rune -> bool): (j: nat)
    requires i <= |s|
    ensures i <= j <= |s|
    decreases |s| - i
  {
    match PeekAt(s, i)
    case Rune(c, size) => if stop(c) then i else SkipUntil(s, i + size, stop)
    case _ => i
  }

  /** At least one accepted rune and at least min bytes, followed by something valid or the end. */
  function ReadWhile(s: Bytes, i: nat, p: Test, min: nat): (j: Option<nat>)
    requires i <= |s|
    ensures j.Some? ==> i < j.value <= |s|
  {
    var j := SkipWhile(s, i, 0, p);
    if PeekAt(s, j).Invalid? || j == i || j - i < min then None else Some(j)
  }

  /** The end of a multi-line comment, given how many comments are open at i. The opening is read as a nested one from depth 0. */
  function Comment(s: Bytes, i: nat, depth: int): (j: Option<nat>)
    requires i <= |s|
    ensures j.Some? ==> i < j.value <= |s|
    decreases |s| - i
  {
    match PeekAt(s, i)
    case Rune(c, size) =>
      if c == '*' as int && At(s, i + size, '/' as int) then
        if depth - 1 == 0 then Some(i + size + 1) else Comment(s, i + size + 1, depth - 1)
      else if c == '/' as int && At(s, i + size, '*' as int) then Comment(s, i + size + 1, depth + 1)
      else Comment(s, i + size, depth)
    case _ => None
  }

  /** The end of a single-line quoted string, from inside it. */
  function QuotedEnd(s: Bytes, i: nat, escaped: bool): (j: Option<nat>)
    requires i <= |s|
    ensures j.Some? ==> i < j.value <= |s|
    decreases |s| - i
  {
    match PeekAt(s, i)
    case Rune(c, size) =>
      if escaped then
        if IsNewline(c) || IsWhiteSpace(c) then QuotedEnd(s, SkipWhile(s, i + size, 0, LINE_SPACE), false)
        else QuotedEnd(s, i + size, false)
      else if c == '\\' as int then QuotedEnd(s, i + size, true)
      else if c == '"' as int then Some(i + size)
      else if IsNewline(c) then None
      else QuotedEnd(s, i + size, false)
    case _ => None
  }

  const LINE_SPACE: Test := (n: nat, c: Rune) => IsNewline(c) || IsWhiteSpace(c)

  /** The end of a multi-line quoted string, from inside it, after some consecutive quotes. */
  function MultiQuotedEnd(s: Bytes, i: nat, escaped: bool, quotes: nat): (j: Option<nat>)
    requires i <= |s|
    ensures j.Some? ==> i < j.value <= |s|
    decreases |s| - i
  {
    match PeekAt(s, i)
    case Rune(c, size) =>
      if escaped then MultiQuotedEnd(s, i + size, false, 0)
      else if c == '\\' as int then MultiQuotedEnd(s, i + size, true, 0)
      else if c == '"' as int then (if quotes + 1 >= 3 then Some(i + size) else MultiQuotedEnd(s, i + size, false, quotes + 1))
      else MultiQuotedEnd(s, i + size, false, 0)
    case _ => None
  }

  function QuotedText(s: Bytes, i: nat): (r: Option<(TokenID, nat)>)
    requires i < |s|
    ensures r.Some? ==> i < r.value.1 <= |s| && IsValue(r.value.0)
  {
    if At(s, i + 1, '"' as int) && At(s, i + 2, '"' as int) then
      var j :- MultiQuotedEnd(s, i + 3, false, 0);
      Some((MultilineString, j))
    else
      var j :- QuotedEnd(s, i + 1, false);
      Some((QuotedString, j))
  }

  /** How many '#' follow i, counting at most max. */
  function Hashes(s: Bytes, i: nat, max: nat): (n: nat)
    requires i <= |s|
    ensures n <= max && i + n <= |s|
    decreases max
  {
    if max > 0 && At(s, i, '#' as int) then 1 + Hashes(s, i + 1, max - 1) else 0
  }

  /** The end of a single-line raw string with n hashes, from inside it. */
  function Raw(s: Bytes, i: nat, n: nat): (j: Option<nat>)
    requires i <= |s|
    ensures j.Some? ==> i < j.value <= |s|
    decreases |s| - i
  {
    match PeekAt(s, i)
    case Rune(c, size) =>
      if c == '"' as int then
        var m := Hashes(s, i + size, n);
        if m == n then Some(i + size + n) else Raw(s, i + size + m, n)
      else if IsNewline(c) then None
      else Raw(s, i + size, n)
    case _ => None
  }

  /** The end of a multi-line raw string with n hashes, from inside it, after some consecutive quotes. */
  function MultiRaw(s: Bytes, i: nat, quotes: nat, n: nat): (j: Option<nat>)
    requires i <= |s|
    ensures j.Some? ==> i < j.value <= |s|
    decreases |s| - i
  {
    match PeekAt(s, i)
    case Rune(c, size) =>
      if c == '"' as int then
        if quotes + 1 >= 3 then
          var m := Hashes(s, i + size, n);
          if m == n then Some(i + size + n) else MultiRaw(s, i + size + m, 0, n)
        else MultiRaw(s, i + size, quotes + 1, n)
      else MultiRaw(s, i + size, 0, n)
    case _ => None
  }

  /** A raw string whose opening quote is at i, after n hashes. */
  function RawText(s: Bytes, i: nat, n: nat): (r: Option<(TokenID, nat)>)
    requires i < |s|
    ensures r.Some? ==> i < r.value.1 <= |s| && IsValue(r.value.0)
  {
    if At(s, i + 1, '"' as int) && At(s, i + 2, '"' as int) then
      var k :- MultiRaw(s, i + 3, 0, n);
      Some((MultilineRawString, k))
    else
      var k :- Raw(s, i + 1, n);
      Some((RawString, k))
  }

  const KEYWORD: Test := (n: nat, c: Rune) => ('a' as int <= c <= 'z' as int) || c == '-' as int

  function Chars(text: string): (b: Bytes)
    requires forall i :: 0 <= i < |text| ==> text[i] as int < 128
    ensures |b| == |text|
  {
    seq(|text|, i requires 0 <= i < |text| => text[i] as int)
  }

  const TRUE: Bytes := Chars("true")
  const FALSE: Bytes := Chars("false")
  const NULL_WORD: Bytes := Chars("null")
  const INF: Bytes := Chars("inf")
  const MINUS_INF: Bytes := Chars("-inf")
  const NAN: Bytes := Chars("nan")

  function KeywordToken(word: Bytes): Option<TokenID> {
    if word == TRUE || word == FALSE then Some(Boolean)
    else if word == NULL_WORD then Some(Null)
    else if word == INF || word == MINUS_INF || word == NAN then Some(FloatKeyword)
    else None
  }

  function HashToken(s: Bytes, i: nat): (r: Option<(TokenID, nat)>)
    requires i < |s| && At(s, i, '#' as int)
    ensures r.Some? ==> i < r.value.1 <= |s| && IsValue(r.value.0)
  {
    var n := Hashes(s, i, |s| - i);
    var j := i + n;
    if At(s, j, '"' as int) then RawText(s, j, n)
    else if n != 1 || !PeekAt(s, j).Rune? then None
    else
      var k :- ReadWhile(s, j, KEYWORD, 1);
      var id :- KeywordToken(s[j..k]);
      Some((id, k))
  }

  /** A token of source[..end], one that lost its data, the end of the input, or an error. */
  datatype Lexed = Lexed(id: TokenID, end: nat, whole: bool) | LexEof | LexError

  const DIGITS_AND_UNDERSCORES: Test := (n: nat, c: Rune) => IsDigit(c) || (n > 0 && c == '_' as int)

  function Integer(s: Bytes, i: nat): (j: Option<nat>)
    requires i <= |s|
    ensures j.Some? ==> i < j.value <= |s|
  {
    ReadWhile(s, i, DIGITS_AND_UNDERSCORES, 1)
  }

  function SignedInteger(s: Bytes, i: nat): (j: Option<nat>)
    requires i <= |s|
    ensures j.Some? ==> i < j.value <= |s|
  {
    if At(s, i, '+' as int) || At(s, i, '-' as int) then Integer(s, i + 1) else Integer(s, i)
  }

  /** An optional fraction. */
  function Fraction(s: Bytes, i: nat): (j: Option<nat>)
    requires i <= |s|
    ensures j.Some? ==> i <= j.value <= |s|
  {
    if At(s, i, '.' as int) then Integer(s, i + 1) else Some(i)
  }

  predicate AtExponent(s: Bytes, i: nat) {
    At(s, i, 'e' as int) || At(s, i, 'E' as int)
  }

  /** A number must be followed by a separator, the end, or something unreadable. */
  function NumberEnd(s: Bytes, i: nat): (r: Lexed)
    requires i <= |s|
    ensures r.Lexed? ==> r.end == i && r.id.Decimal? && r.whole
  {
    if PeekAt(s, i).Rune? && !IsSeparator(PeekAt(s, i).c) then LexError else Lexed(Decimal, i, true)
  }

  /** A decimal number. If the input ends where its exponent should start, that is taken for the end of the input. */
  function DecimalNumber(s: Bytes, i: nat): (r: Lexed)
    requires i <= |s|
    ensures r.Lexed? ==> i < r.end <= |s| && r.id.Decimal? && r.whole
  {
    match SignedInteger(s, i)
    case None => LexError
    case Some(j) =>
      match Fraction(s, j)
      case None => LexError
      case Some(k) =>
        if !AtExponent(s, k) then NumberEnd(s, k)
        else if k + 1 == |s| then LexEof
        else
          match SignedInteger(s, k + 1)
          case None => LexError
          case Some(l) => NumberEnd(s, l)
  }

  predicate Hex(c: Rune) {
    IsDigit(c) || 'a' as int <= c <= 'f' as int || 'A' as int <= c <= 'F' as int || c == '_' as int
  }
  predicate Oct(c: Rune) { '0' as int <= c <= '7' as int || c == '_' as int }
  predicate Bin(c: Rune) { c == '0' as int || c == '1' as int || c == '_' as int }

  /** The test of readNumericBase: the two characters of the prefix pass unseen. */
  function AfterPrefix(id: TokenID): Test {
    (n: nat, c: Rune) => n < 2 || (if id.Hexadecimal? then Hex(c) else if id.Octal? then Oct(c) else Bin(c))
  }

  function NumericBase(s: Bytes, i: nat, id: TokenID): (j: Option<nat>)
    requires i <= |s|
    ensures j.Some? ==> i < j.value <= |s|
  {
    var j :- ReadWhile(s, i, AfterPrefix(id), 3);
    if s[i + 2] == '_' as int then None
    else if PeekAt(s, j).Rune? && !IsWhiteSpace(PeekAt(s, j).c) && !IsNewline(PeekAt(s, j).c) then None
    else Some(j)
  }

  const BARE_CHARS: Test := (n: nat, c: Rune) => IsBareChar(c)

  predicate Reserved(word: Bytes) { KeywordToken(word).Some? }

  function BareWord(s: Bytes, i: nat): (j: Option<nat>)
    requires i <= |s|
    ensures j.Some? ==> i < j.value <= |s|
  {
    match PeekAt(s, i)
    case Rune(c, size) =>
      var second := PeekAt(s, i + size);
      var digit := second.Rune? && IsDigit(second.c);
      if (c == '+' as int || c == '-' as int) && digit then None
      else if c != '+' as int && c != '-' as int && !IsBareStart(c) then None
      else if c == '.' as int && digit then None
      else
        var j :- ReadWhile(s, i, BARE_CHARS, 1);
        if Reserved(s[i..j]) then None else Some(j)
    case _ => None
  }

  function Identifier(s: Bytes, i: nat): (r: Option<(TokenID, nat)>)
    requires i < |s|
    ensures r.Some? ==> i < r.value.1 <= |s| && IsValue(r.value.0)
  {
    match PeekAt(s, i)
    case Rune(c, size) =>
      if c <= 0x20 || c > 0x10FFFF then None
      else if c == '"' as int then QuotedText(s, i)
      else if IsPunctuation(c) then None
      else
        var second := PeekAt(s, i + size);
        if second.Rune? && !IsBareStart(c) && !(c == '-' as int && !IsDigit(second.c)) then None
        else
          var j :- BareWord(s, i);
          if s[i..j] == ['r' as int] && (At(s, j, '"' as int) || At(s, j, '#' as int)) then None
          else Some((BareIdentifier, j))
    case _ => None
  }

  function Lift(r: Option<(TokenID, nat)>): Lexed {
    match r case None => LexError case Some(p) => Lexed(p.0, p.1, true)
  }

  function LiftAs(id: TokenID, r: Option<nat>): Lexed {
    match r case None => LexError case Some(j) => Lexed(id, j, true)
  }

  const BLANKS: Test := (n: nat, c: Rune) => IsWhiteSpace(c)

  function Punctuation(c: Rune): Option<TokenID> {
    if c == '(' as int then Some(ParensOpen)
    else if c == ')' as int then Some(ParensClose)
    else if c == '{' as int then Some(BraceOpen)
    else if c == '}' as int then Some(BraceClose)
    else if c == '=' as int then Some(Equals)
    else if c == ';' as int then Some(Semicolon)
    else if c == '\\' as int then Some(Continuation)
    else None
  }

  /** '/' starts a comment or a slashdash; at the very end of the input it is taken for the end. */
  function SlashToken(s: Bytes, i: nat): (r: Lexed)
    requires i < |s| && At(s, i, '/' as int)
    ensures r.Lexed? ==> i < r.end <= |s|
  {
    match PeekAt(s, i + 1)
    case AtEof => LexEof
    case Invalid => LexError
    case Rune(c, _) =>
      if c == '*' as int then LiftAs(MultiLineComment, Comment(s, i, 0))
      else if c == '/' as int then
        var j := SkipUntil(s, i + 2, IsNewline);
        if PeekAt(s, j).Invalid? then LexError else Lexed(SingleLineComment, j, true)
      else if c == '-' as int then Lexed(TokenComment, i + 2, true)
      else LexError
  }

  /** A number that starts with 0; at the very end of the input the 0 is taken for the end. */
  function ZeroToken(s: Bytes, i: nat): (r: Lexed)
    requires i < |s| && At(s, i, '0' as int)
    ensures r.Lexed? ==> i < r.end <= |s|
  {
    match PeekAt(s, i + 1)
    case AtEof => LexEof
    case Invalid => LexError
    case Rune(c, _) =>
      if c == 'x' as int then LiftAs(Hexadecimal, NumericBase(s, i, Hexadecimal))
      else if c == 'o' as int then LiftAs(Octal, NumericBase(s, i, Octal))
      else if c == 'b' as int then LiftAs(Binary, NumericBase(s, i, Binary))
      else DecimalNumber(s, i)
  }

  /** A run of whitespace. It loses its data if it runs into something invalid, which the next read reports. */
  function BlankToken(s: Bytes, i: nat): (r: Lexed)
    requires i <= |s| && PeekAt(s, i).Rune? && IsWhiteSpace(PeekAt(s, i).c)
    ensures r.Lexed? ==> i < r.end <= |s|
  {
    var j := SkipWhile(s, i, 0, BLANKS);
    Lexed(Whitespace, j, !PeekAt(s, j).Invalid?)
  }

  /** The token at i. A byte order mark is whitespace at the start of the document only. */
  function NextToken(s: Bytes, i: nat, bomChecked: bool): (r: Lexed)
    requires i <= |s|
    ensures r.Lexed? ==> i < r.end <= |s|
  {
    match PeekAt(s, i)
    case AtEof => LexEof
    case Invalid => LexError
    case Rune(c, size) =>
      if c == 0xFEFF then (if i == 0 && !bomChecked then Lexed(Whitespace, i + size, true) else LexError)
      else if IsWhiteSpace(c) then BlankToken(s, i)
      else if c == '\r' as int && At(s, i + 1, '\n' as int) then Lexed(Newline, i + 2, true)
      else if IsNewline(c) then Lexed(Newline, i + size, true)
      else if c == '/' as int then SlashToken(s, i)
      else if c == '#' as int then Lift(HashToken(s, i))
      else if Punctuation(c).Some? then Lexed(Punctuation(c).value, i + size, true)
      else if c == '+' as int || c == '-' as int then
        var second := PeekAt(s, i + 1);
        if second.Rune? && IsDigit(second.c) then DecimalNumber(s, i) else Lift(Identifier(s, i))
      else if c == '0' as int then ZeroToken(s, i)
      else if IsDigit(c) then DecimalNumber(s, i)
      else Lift(Identifier(s, i))
  }

  /** All tokens from i on and where the scan stopped, or an error. */
  datatype Scan = Scanned(tokens: seq<Token>, stop: nat) | Failed

  function ScanFrom(s: Bytes, i: nat, bomChecked: bool): Scan
    requires i <= |s|
    decreases |s| - i
  {
    match NextToken(s, i, bomChecked)
    case LexEof => Scanned([], i)
    case LexError => Failed
    case Lexed(id, end, whole) =>
      match ScanFrom(s, end, true)
      case Failed => Failed
      case Scanned(ts, stop) => Scanned([Token(id, if whole then s[i..end] else [], i)] + ts, stop)
  }
}
