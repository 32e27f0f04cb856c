// The lexical grammar: exactly which text is which token. Numbers are in Numbers, comments in Comments.
module Lexemes {
  import opened Basics
  import opened Tokens
  import opened Utf8
  import opened Lexer
  import Comments
  import Strings

  // ----- runes -----

  predicate IsSpaceRune(c: Rune) {
    c in {0x09, 0x20, 0xA0, 0x1680, 0x2000, 0x2001, 0x2002, 0x2003, 0x2004, 0x2005, 0x2006, 0x2007, 0x2008, 0x2009, 0x200A, 0x202F, 0x205F, 0x3000}
  }

  predicate IsBreakRune(c: Rune) { c in {0x0A, 0x0B, 0x0C, 0x0D, 0x85, 0x2028, 0x2029} }

  /** Controls, direction marks and the byte order mark. */
  predicate IsForbiddenRune(c: Rune) {
    || c < 0x20 || c in {0x7F, 0x200E, 0x200F, 0x202A, 0x202B, 0x202C, 0x202D, 0x202E, 0x2066, 0x2067, 0x2068, 0x2069, 0xFEFF}
  }

  predicate IsMarkRune(c: Rune) { 0 <= c < 0x80 && c as char in "(){}[]/\\\"#;=" }

  /** What a bare name may consist of. */
  predicate IsNameRune(c: Rune) { !IsSpaceRune(c) && !IsBreakRune(c) && !IsForbiddenRune(c) && !IsMarkRune(c) && c <= 0x10FFFF }

  lemma RuneClasses(c: Rune)
    ensures IsWhiteSpace(c) <==> IsSpaceRune(c)
    ensures IsNewline(c) <==> IsBreakRune(c)
    ensures IsBareChar(c) <==> IsNameRune(c)
  {
    assert "(){}[]/\\\"#;=" == ['(', ')', '{', '}', '[', ']', '/', '\\', '"', '#', ';', '='];
  }

  /** The scanner reads a rune exactly where its encoding stands, and never U+FFFD. */
  lemma PeeksExactly(s: Bytes, i: nat, r: Rune, n: nat)
    requires i <= |s|
    ensures PeekAt(s, i) == Lexer.Rune(r, n) <==>
      Strings.IsScalar(r) && r != RUNE_ERROR && n == |Strings.Encode(r)| && i < |s| && StandsAt(Strings.Encode(r), s, i)
  {
    hide Strings.Encode, DecodeAt;
    if i < |s| {
      if !Malformed(s, i) { Strings.DecodedIsEncoded(s, i); }
      if Strings.IsScalar(r) {
        Strings.DecodesExactly(s, i, r);
        Strings.LongError(r);
      }
    }
  }

  predicate RuneAt(s: Bytes, i: nat, p: Rune -> bool) {
    i < |s| && PeekAt(s, i).Rune? && p(PeekAt(s, i).c)
  }

  /** From i to e stand runes of one kind. */
  predicate RunTo(s: Bytes, i: nat, e: nat, p: Rune -> bool)
    decreases e - i
  {
    i == e || (i < e && RuneAt(s, i, p) && RunTo(s, i + PeekAt(s, i).size, e, p))
  }

  /** A test that does not look at the position. */
  ghost predicate Tests(test: Test, p: Rune -> bool) {
    forall n: nat, c: Rune :: test(n, c) <==> p(c)
  }

  /** Skipping while a test holds ends exactly where the run of its runes does. */
  lemma {:induction false} SkipsRun(s: Bytes, i: nat, n: nat, test: Test, p: Rune -> bool, e: nat)
    requires i <= |s| && Tests(test, p)
    ensures SkipWhile(s, i, n, test) == e <==> i <= e <= |s| && RunTo(s, i, e, p) && !RuneAt(s, e, p)
    decreases |s| - i
  {
    if i < |s| && PeekAt(s, i).Rune? && test(n, PeekAt(s, i).c) {
      SkipsRun(s, i + PeekAt(s, i).size, n + 1, test, p, e);
    }
  }

  lemma ReadsRun(s: Bytes, i: nat, test: Test, p: Rune -> bool, e: nat)
    requires i <= |s| && Tests(test, p)
    ensures ReadWhile(s, i, test, 1) == Some(e) <==> i < e <= |s| && RunTo(s, i, e, p) && !RuneAt(s, e, p) && !PeekAt(s, e).Invalid?
  {
    hide PeekAt, SkipWhile, RunTo;
    SkipsRun(s, i, 0, test, p, SkipWhile(s, i, 0, test));
    SkipsRun(s, i, 0, test, p, e);
  }

  lemma {:induction false} UntilRun(s: Bytes, i: nat, e: nat)
    requires i <= |s|
    ensures SkipUntil(s, i, IsNewline) == e <==> i <= e <= |s| && RunTo(s, i, e, c => !IsBreakRune(c)) && !RuneAt(s, e, c => !IsBreakRune(c))
    decreases |s| - i
  {
    if i < |s| && PeekAt(s, i).Rune? {
      RuneClasses(PeekAt(s, i).c);
      if !IsNewline(PeekAt(s, i).c) { UntilRun(s, i + PeekAt(s, i).size, e); }
    }
  }

  lemma AsciiIs(s: Bytes, i: nat, c: Rune)
    requires 0 <= c < 0x80
    ensures At(s, i, c) <==> i < |s| && s[i] == c
    ensures i < |s| && s[i] < 0x80 ==> PeekAt(s, i) == Lexer.Rune(s[i], 1)
    ensures i < |s| && PeekAt(s, i).Rune? && PeekAt(s, i).c < 0x80 ==> s[i] == PeekAt(s, i).c
  {
    if i < |s| { AsciiDecodes(s, i); }
  }

  // ----- which kinds of token start with which rune -----

  /** What the first rune decides. */
  lemma Starts(s: Bytes, i: nat, b: bool)
    requires i <= |s| && NextToken(s, i, b).Lexed?
    ensures i < |s| && PeekAt(s, i).Rune?
    ensures var (c, id) := (PeekAt(s, i).c, NextToken(s, i, b).id);
      && (id.Whitespace? <==> IsSpaceRune(c) || c == 0xFEFF)
      && (id.Newline? <==> IsBreakRune(c))
      && (id.SingleLineComment? || id.MultiLineComment? || id.TokenComment? <==> c == '/' as int)
      && (id.Boolean? || id.Null? || id.FloatKeyword? || id.RawString? || id.MultilineRawString? <==> c == '#' as int)
      && (id.QuotedString? || id.MultilineString? <==> c == '"' as int)
  {
    RuneClasses(DecodeAt(s, i).c);
    Kinds(s, i);
    hide SlashToken, HashToken, ZeroToken, Identifier, DecimalNumber, BlankToken, IsBareChar, IsNameRune, IsWhiteSpace, IsNewline, DecodeAt;
    MarksAre(PeekAt(s, i).c);
  }

  /** The kinds of token that the parts of the scanner read. */
  lemma Kinds(s: Bytes, i: nat)
    requires i < |s|
    ensures At(s, i, '/' as int) && SlashToken(s, i).Lexed? ==> SlashToken(s, i).id.TokenComment? || IsComment(SlashToken(s, i).id)
    ensures At(s, i, '#' as int) && HashToken(s, i).Some? ==>
      HashToken(s, i).value.0 in {Boolean, Null, FloatKeyword, RawString, MultilineRawString}
    ensures At(s, i, '0' as int) && ZeroToken(s, i).Lexed? ==> ZeroToken(s, i).id in {Hexadecimal, Octal, Binary, Decimal}
    ensures DecimalNumber(s, i).Lexed? ==> DecimalNumber(s, i).id == Decimal
    ensures Identifier(s, i).Some? ==>
      if At(s, i, '"' as int) then Identifier(s, i).value.0 in {QuotedString, MultilineString} else Identifier(s, i).value.0 == BareIdentifier
  {
    hide NumericBase, SignedInteger, Fraction, Comment, QuotedEnd, MultiQuotedEnd, BareWord, Raw, MultiRaw, SkipWhile, SkipUntil, ReadWhile, Hashes,
      DecodeAt, IsBareStart, IsNewline;
  }

  lemma MarksAre(c: Rune)
    ensures Punctuation(c).Some? ==> Punctuation(c).value in {ParensOpen, ParensClose, BraceOpen, BraceClose, Equals, Semicolon, Continuation}
    ensures Punctuation(c).Some? ==> !IsSpaceRune(c) && !IsBreakRune(c) && c != '"' as int && c != '#' as int && c != '/' as int && c != 0xFEFF
  {}

  // ----- whitespace and newlines -----

  /** Main result: newlines are the listed runes, and CR LF is one newline. */
  lemma NewlineExactly(s: Bytes, i: nat, e: nat, b: bool)
    requires i <= |s|
    ensures NextToken(s, i, b) == Lexed(Newline, e, true) <==>
      && i < |s| && RuneAt(s, i, IsBreakRune)
      && e == if s[i] == 0x0D && i + 1 < |s| && s[i + 1] == 0x0A then i + 2 else i + PeekAt(s, i).size
  {
    hide BlankToken, SlashToken, HashToken, ZeroToken, DecimalNumber, Identifier;
    if NextToken(s, i, b).Lexed? { Starts(s, i, b); }
    if i < |s| {
      RuneClasses(DecodeAt(s, i).c);
      AsciiIs(s, i, 0x0D);
      AsciiIs(s, i + 1, 0x0A);
    }
  }

  lemma BlanksTest()
    ensures Tests(BLANKS, IsSpaceRune)
  {
    forall n: nat, c: Rune ensures BLANKS(n, c) <==> IsSpaceRune(c) { RuneClasses(c); }
  }

  /** Main result: whitespace is read as far as it goes; a byte order mark is whitespace at the start only. */
  lemma WhitespaceExactly(s: Bytes, i: nat, e: nat, whole: bool, b: bool)
    requires i <= |s|
    ensures NextToken(s, i, b) == Lexed(Whitespace, e, whole) <==>
      if i < |s| && PeekAt(s, i).Rune? && PeekAt(s, i).c == 0xFEFF then i == 0 && !b && e == 3 && whole
      else i < e <= |s| && RunTo(s, i, e, IsSpaceRune) && !RuneAt(s, e, IsSpaceRune) && whole == !PeekAt(s, e).Invalid?
  {
    BlanksTest();
    if i < |s| {
      RuneClasses(DecodeAt(s, i).c);
      SkipsRun(s, i, 0, BLANKS, IsSpaceRune, SkipWhile(s, i, 0, BLANKS));
      SkipsRun(s, i, 0, BLANKS, IsSpaceRune, e);
      MarkIsThree(s, i);
    }
    if NextToken(s, i, b).Lexed? { Starts(s, i, b); }
    hide SkipWhile, SlashToken, HashToken, ZeroToken, DecimalNumber, Identifier, DecodeAt;
  }

  lemma MarkIsThree(s: Bytes, i: nat)
    requires i <= |s|
    ensures PeekAt(s, i).Rune? && PeekAt(s, i).c == 0xFEFF ==> PeekAt(s, i).size == 3
  {}

  // ----- marks -----

  predicate IsMark(c: char, id: TokenID) {
    || (c == '(' && id.ParensOpen?) || (c == ')' && id.ParensClose?) || (c == '{' && id.BraceOpen?) || (c == '}' && id.BraceClose?)
    || (c == '=' && id.Equals?) || (c == ';' && id.Semicolon?) || (c == '\\' && id.Continuation?)
  }

  /** Main result: each mark is one token wherever it stands. */
  lemma MarkExactly(s: Bytes, i: nat, e: nat, b: bool, c: char, id: TokenID)
    requires i <= |s| && IsMark(c, id)
    ensures NextToken(s, i, b) == Lexed(id, e, true) <==> i < |s| && s[i] == c as int && e == i + 1
  {
    AsciiIs(s, i, c as int);
    MarkIsPunctuation(c, id);
    if i < |s| {
      NoMarkElsewhere(s, i);
      RuneClasses(DecodeAt(s, i).c);
      MarksAre(DecodeAt(s, i).c);
      if PeekAt(s, i).Rune? { MarkOf(PeekAt(s, i).c, c, id); }
    }
    if NextToken(s, i, b).Lexed? { Starts(s, i, b); }
    hide BlankToken, SlashToken, HashToken, ZeroToken, DecimalNumber, Identifier, IsMark, Punctuation, DecodeAt,
      IsWhiteSpace, IsNewline, IsBareChar, IsNameRune;
  }

  lemma MarkIsPunctuation(c: char, id: TokenID)
    requires IsMark(c, id)
    ensures Punctuation(c as int) == Some(id) && !IsSpaceRune(c as int) && !IsBreakRune(c as int) && c as int < 0x80
    ensures c != '/' && c != '#' && c as int != 0xFEFF && c as int != 0x0D
    ensures !id.Whitespace? && !id.Newline? && !id.TokenComment? && !IsComment(id) && !IsValue(id)
  {}

  lemma MarkOf(r: Rune, c: char, id: TokenID)
    requires IsMark(c, id)
    ensures Punctuation(r) == Some(id) <==> r == c as int
  {}

  lemma NoMarkElsewhere(s: Bytes, i: nat)
    requires i < |s|
    ensures var r := Identifier(s, i); r.Some? ==> IsValue(r.value.0)
    ensures var r := DecimalNumber(s, i); r.Lexed? ==> r.id == Decimal
    ensures At(s, i, '0' as int) ==> var r := ZeroToken(s, i);
      r.Lexed? ==> IsValue(r.id)
    ensures At(s, i, '#' as int) ==> var r := HashToken(s, i);
      r.Some? ==> IsValue(r.value.0)
  {
    hide NumericBase, QuotedEnd, MultiQuotedEnd, BareWord, RawText, ReadWhile;
  }

  // ----- slashes -----

  /** Main result: a slashdash, a comment to the end of the line, and a comment with delimiters; nothing else starts with a slash. */
  lemma SlashExactly(s: Bytes, i: nat, e: nat, b: bool)
    requires i <= |s|
    ensures NextToken(s, i, b) == Lexed(TokenComment, e, true) <==> i + 1 < |s| && s[i] == '/' as int && s[i + 1] == '-' as int && e == i + 2
    ensures NextToken(s, i, b) == Lexed(SingleLineComment, e, true) <==>
      && i + 2 <= e <= |s| && s[i] == '/' as int && s[i + 1] == '/' as int
      && RunTo(s, i + 2, e, c => !IsBreakRune(c)) && (e == |s| || RuneAt(s, e, IsBreakRune))
    ensures NextToken(s, i, b) == Lexed(MultiLineComment, e, true) <==> i < |s| && s[i] == '/' as int && Comments.Derives(s, i, e, true)
    ensures i < |s| && s[i] == '/' as int ==> var r := NextToken(s, i, b);
      r.LexError? || (r.LexEof? && i + 1 == |s|) || (r.Lexed? && r.whole && (r.id.TokenComment? || IsComment(r.id)))
  {
    AsciiIs(s, i, '/' as int);
    if NextToken(s, i, b).Lexed? { Starts(s, i, b); }
    if i < |s| && s[i] == '/' as int {
      SlashIsNext(s, i, b);
      AsciiIs(s, i + 1, '-' as int);
      AsciiIs(s, i + 1, '/' as int);
      AsciiIs(s, i + 1, '*' as int);
      if Comments.Opens(s, i) { Comments.CounterIsTheGreedyGrammar(s, i, e); }
      if i + 2 <= |s| {
        UntilRun(s, i + 2, e);
        UntilRun(s, i + 2, SkipUntil(s, i + 2, IsNewline));
      }
      NoComment(s, i, e);
    }
    hide NextToken, SkipUntil, Comment, RunTo, Comments.Derives;
  }

  lemma SlashIsNext(s: Bytes, i: nat, b: bool)
    requires i < |s| && s[i] == '/' as int
    ensures At(s, i, '/' as int) && NextToken(s, i, b) == SlashToken(s, i)
  {
    AsciiDecodes(s, i);
    hide SlashToken;
  }

  lemma NoComment(s: Bytes, i: nat, e: nat)
    ensures Comments.Derives(s, i, e, true) ==> i + 1 < |s| && s[i + 1] == '*' as int
  {}

  // ----- keywords -----

  predicate IsKeyword(word: string, id: TokenID) {
    || ((word == "true" || word == "false") && id.Boolean?) || (word == "null" && id.Null?)
    || ((word == "inf" || word == "-inf" || word == "nan") && id.FloatKeyword?)
  }

  predicate IsKeywordRune(c: Rune) { 'a' as int <= c <= 'z' as int || c == '-' as int }

  lemma KeywordTest()
    ensures Tests(KEYWORD, IsKeywordRune)
  {}

  predicate Spells(b: Bytes, word: string) { |b| == |word| && forall k :: 0 <= k < |b| ==> b[k] == word[k] as int }

  /** The six words are the keywords. */
  lemma WordsAre(b: Bytes, id: TokenID)
    ensures KeywordToken(b) == Some(id) <==> (
      || ((Spells(b, "true") || Spells(b, "false")) && id.Boolean?) || (Spells(b, "null") && id.Null?)
      || ((Spells(b, "inf") || Spells(b, "-inf") || Spells(b, "nan")) && id.FloatKeyword?))
  {
    assert Spells(b, "true") <==> b == TRUE;
    assert Spells(b, "false") <==> b == FALSE;
    assert Spells(b, "null") <==> b == NULL_WORD;
    assert Spells(b, "inf") <==> b == INF;
    assert Spells(b, "-inf") <==> b == MINUS_INF;
    assert Spells(b, "nan") <==> b == NAN;
    assert |TRUE| == 4 && |FALSE| == 5 && |NULL_WORD| == 4 && |INF| == 3 && |MINUS_INF| == 4 && |NAN| == 3;
    assert TRUE[0] == 't' as int && NULL_WORD[0] == 'n' as int && INF[0] == 'i' as int && NAN[0] == 'n' as int && MINUS_INF[0] == '-' as int;
  }

  predicate IsHash(c: Rune) { c == '#' as int }

  /** One hash, and then none. */
  lemma OneHash(s: Bytes, i: nat)
    requires i < |s| && s[i] == '#' as int
    ensures Hashes(s, i, |s| - i) == 1 <==> !(i + 1 < |s| && s[i + 1] == '#' as int)
  {
    AsciiIs(s, i, '#' as int);
    AsciiIs(s, i + 1, '#' as int);
  }

  /** Main result: the keywords are the six words behind a hash that no further letter or dash follows. */
  lemma KeywordExactly(s: Bytes, i: nat, e: nat, b: bool, id: TokenID)
    requires i <= |s| && (id.Boolean? || id.Null? || id.FloatKeyword?)
    ensures NextToken(s, i, b) == Lexed(id, e, true) <==>
      && i + 1 < e <= |s| && s[i] == '#' as int && (exists word :: IsKeyword(word, id) && Spells(s[i + 1..e], word))
      && (e == |s| || (PeekAt(s, e).Rune? && !IsKeywordRune(PeekAt(s, e).c)))
  {
    AsciiIs(s, i, '#' as int);
    if NextToken(s, i, b).Lexed? { Starts(s, i, b); }
    if i < |s| && s[i] == '#' as int {
      HashIsNext(s, i, b);
      WordIsRead(s, i, e, id);
      if i + 1 < e <= |s| { KeywordIs(s[i + 1..e], id); }
    }
    hide NextToken, IsKeyword, Spells;
  }

  lemma HashIsNext(s: Bytes, i: nat, b: bool)
    requires i < |s| && s[i] == '#' as int
    ensures At(s, i, '#' as int) && NextToken(s, i, b) == Lift(HashToken(s, i))
  {
    AsciiDecodes(s, i);
    hide HashToken;
  }

  lemma KeywordIs(b: Bytes, id: TokenID)
    ensures KeywordToken(b) == Some(id) <==> exists word :: IsKeyword(word, id) && Spells(b, word)
  {
    WordsAre(b, id);
    hide KeywordToken;
    if KeywordToken(b) == Some(id) {
      var word := if Spells(b, "true") then "true" else if Spells(b, "false") then "false" else if Spells(b, "null") then "null"
        else if Spells(b, "inf") then "inf" else if Spells(b, "-inf") then "-inf" else "nan";
      assert IsKeyword(word, id) && Spells(b, word);
    }
  }

  lemma WordIsRead(s: Bytes, i: nat, e: nat, id: TokenID)
    requires i < |s| && s[i] == '#' as int && At(s, i, '#' as int) && (id.Boolean? || id.Null? || id.FloatKeyword?)
    ensures HashToken(s, i) == Some((id, e)) <==>
      && i + 1 < e <= |s| && KeywordToken(s[i + 1..e]) == Some(id)
      && (e == |s| || (PeekAt(s, e).Rune? && !IsKeywordRune(PeekAt(s, e).c)))
  {
    hide KeywordToken, SkipWhile, MultiRaw, Raw;
    KeywordTest();
    OneHash(s, i);
    AsciiIs(s, i + 1, '"' as int);
    ReadsRun(s, i + 1, KEYWORD, IsKeywordRune, e);
    if i + 1 < e <= |s| && KeywordToken(s[i + 1..e]) == Some(id) {
      KeywordHasLetters(s, i + 1, e, id);
      AsciiIs(s, i + 1, s[i + 1]);
    }
    var k := ReadWhile(s, i + 1, KEYWORD, 1);
    if k.Some? { ReadsRun(s, i + 1, KEYWORD, IsKeywordRune, k.value); }
    hide ReadWhile, RunTo, PeekAt;
  }

  lemma KeywordHasLetters(s: Bytes, i: nat, e: nat, id: TokenID)
    requires i < e <= |s| && KeywordToken(s[i..e]) == Some(id)
    ensures s[i] != '#' as int && s[i] != '"' as int && s[i] < 0x80 && RunTo(s, i, e, IsKeywordRune)
  {
    var w := s[i..e];
    WordsAre(w, id);
    assert forall k :: 0 <= k < |w| ==> IsKeywordRune(w[k]);
    assert forall k :: i <= k < e ==> s[k] == w[k - i];
    hide KeywordToken;
    LettersRun(s, i, e);
  }

  lemma {:induction false} LettersRun(s: Bytes, i: nat, e: nat)
    requires i <= e <= |s| && forall k :: i <= k < e ==> IsKeywordRune(s[k])
    ensures RunTo(s, i, e, IsKeywordRune)
    decreases e - i
  {
    if i < e {
      AsciiIs(s, i, s[i]);
      LettersRun(s, i + 1, e);
    }
  }

  // ----- bare identifiers -----

  /** Starts like a number: with a digit, or with a sign or a dot in front of one. */
  predicate Numeric(s: Bytes, i: nat) {
    && i < |s|
    && (IsDigit(s[i]) || ((s[i] == '+' as int || s[i] == '-' as int || s[i] == '.' as int) && i + 1 < |s| && IsDigit(s[i + 1])))
  }

  predicate IsReserved(b: Bytes) {
    Spells(b, "true") || Spells(b, "false") || Spells(b, "null") || Spells(b, "inf") || Spells(b, "-inf") || Spells(b, "nan")
  }

  lemma NamesTest()
    ensures Tests(BARE_CHARS, IsNameRune)
  {
    forall n: nat, c: Rune ensures BARE_CHARS(n, c) <==> IsNameRune(c) { RuneClasses(c); }
  }

  lemma ReservedIs(b: Bytes)
    ensures Reserved(b) <==> IsReserved(b)
  {
    WordsAre(b, Boolean);
    WordsAre(b, Null);
    WordsAre(b, FloatKeyword);
  }

  /** The first two runes, where they are digits, signs or dots. */
  lemma NumericIs(s: Bytes, i: nat)
    requires i < |s| && PeekAt(s, i).Rune?
    ensures var c := PeekAt(s, i).c; var second := PeekAt(s, i + PeekAt(s, i).size);
      Numeric(s, i) <==> IsDigit(c) || ((c == '+' as int || c == '-' as int || c == '.' as int) && second.Rune? && IsDigit(second.c))
  {
    AsciiDecodes(s, i);
    if i + 1 < |s| { AsciiDecodes(s, i + 1); }
  }

  lemma NameIsRead(s: Bytes, i: nat, e: nat)
    requires i < |s|
    ensures BareWord(s, i) == Some(e) <==>
      && i < e <= |s| && RunTo(s, i, e, IsNameRune) && (e == |s| || (PeekAt(s, e).Rune? && !IsNameRune(PeekAt(s, e).c)))
      && !Numeric(s, i) && !IsReserved(s[i..e])
  {
    NamesTest();
    ReadsRun(s, i, BARE_CHARS, IsNameRune, e);
    var k := ReadWhile(s, i, BARE_CHARS, 1);
    if k.Some? { ReadsRun(s, i, BARE_CHARS, IsNameRune, k.value); }
    if PeekAt(s, i).Rune? {
      NumericIs(s, i);
      RuneClasses(PeekAt(s, i).c);
    }
    if i < e <= |s| { ReservedIs(s[i..e]); }
    hide ReadWhile, Reserved, IsReserved, Numeric, IsBareChar, IsNameRune;
  }

  lemma NameStarts(c: Rune)
    requires IsNameRune(c) && !IsDigit(c)
    ensures IsBareStart(c) && c > 0x20 && c <= 0x10FFFF && !IsPunctuation(c) && !IsWhiteSpace(c) && !IsNewline(c) && c != 0xFEFF
    ensures c != '"' as int && c != '/' as int && c != '#' as int && c != 0x0D && Punctuation(c).None?
  {
    RuneClasses(c);
  }

  /** Where a name may start, the scanner looks for one, and only there. */
  lemma NamesAreTried(s: Bytes, i: nat, b: bool)
    requires i < |s|
    ensures RuneAt(s, i, IsNameRune) && !Numeric(s, i) ==> NextToken(s, i, b) == Lift(Identifier(s, i))
    ensures NextToken(s, i, b).Lexed? && NextToken(s, i, b).id.BareIdentifier? ==> NextToken(s, i, b) == Lift(Identifier(s, i))
  {
    if PeekAt(s, i).Rune? {
      NumericIs(s, i);
      if IsNameRune(PeekAt(s, i).c) && !Numeric(s, i) { NameStarts(PeekAt(s, i).c); }
    }
    if NextToken(s, i, b).Lexed? { Starts(s, i, b); }
    DecimalIsDecimal(s, i);
    hide Numeric, IsNameRune, IsBareStart, IsWhiteSpace, IsNewline, IsPunctuation, Identifier, SlashToken, HashToken,
      BlankToken, NumericBase, DecimalNumber, IsSpaceRune, IsBreakRune;
  }

  lemma DecimalIsDecimal(s: Bytes, i: nat)
    requires i <= |s|
    ensures DecimalNumber(s, i).Lexed? ==> DecimalNumber(s, i).id == Decimal
  {
    hide SignedInteger, Fraction;
  }

  lemma IdentifierIs(s: Bytes, i: nat, e: nat)
    requires i < |s|
    ensures Identifier(s, i) == Some((BareIdentifier, e)) <==>
      BareWord(s, i) == Some(e) && !(s[i..e] == ['r' as int] && (At(s, e, '"' as int) || At(s, e, '#' as int)))
  {
    if PeekAt(s, i).Rune? {
      NumericIs(s, i);
      if IsNameRune(PeekAt(s, i).c) && !IsDigit(PeekAt(s, i).c) { NameStarts(PeekAt(s, i).c); }
      RuneClasses(PeekAt(s, i).c);
    }
    NameIsRead(s, i, e);
    hide BareWord, QuotedText, IsBareStart, IsPunctuation, IsReserved, Numeric, IsNameRune;
  }

  /**
   * Main result: a bare identifier is a word as far as name runes go that does not start like a number and is not reserved;
   * a lone r in front of a quote or a hash, which was a raw string in KDL 1, is refused.
   */
  lemma BareExactly(s: Bytes, i: nat, e: nat, b: bool)
    requires i <= |s|
    ensures NextToken(s, i, b) == Lexed(BareIdentifier, e, true) <==>
      && i < e <= |s| && RunTo(s, i, e, IsNameRune) && (e == |s| || (PeekAt(s, e).Rune? && !IsNameRune(PeekAt(s, e).c)))
      && !Numeric(s, i) && !IsReserved(s[i..e])
      && !(e == i + 1 && s[i] == 'r' as int && e < |s| && (s[e] == '"' as int || s[e] == '#' as int))
  {
    if i < |s| {
      NamesAreTried(s, i, b);
      NameIsRead(s, i, e);
      IdentifierIs(s, i, e);
      if e <= |s| {
        AsciiIs(s, e, '"' as int);
        AsciiIs(s, e, '#' as int);
        assert i < e ==> (s[i..e] == ['r' as int] <==> e == i + 1 && s[i] == 'r' as int);
      }
    }
    hide NextToken, Identifier, BareWord, IsReserved, Numeric, IsNameRune;
  }
}
