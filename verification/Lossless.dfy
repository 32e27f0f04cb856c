// Tokenization loses nothing: the tokens tile the input up to where the scan stops, and it stops early on exactly
// three kinds of input.
module Lossless {
  import opened Basics
  import opened Tokens
  import opened Utf8
  import opened Lexer

  /** A decimal integer: a digit, then digits and underscores. */
  predicate Digits(s: Bytes, i: nat, j: nat) {
    i < j <= |s| && IsDigit(s[i]) && forall k :: i <= k < j ==> IsDigit(s[k]) || s[k] == '_' as int
  }

  /** A number up to, but without, its exponent's digits, which the end of the input cuts off. */
  ghost predicate CutNumber(s: Bytes, i: nat) {
    && i + 1 < |s|
    && (s[|s| - 1] == 'e' as int || s[|s| - 1] == 'E' as int)
    && var a: nat := if s[i] == '+' as int || s[i] == '-' as int then i + 1 else i;
    exists d: nat {:trigger Digits(s, a, d)} :: Digits(s, a, d) && d < |s| && (d == |s| - 1 || (s[d] == '.' as int && Digits(s, d + 1, |s| - 1)))
  }

  /** The endings of an input that the scanner takes for the end of the input. */
  ghost predicate Strands(s: Bytes, i: nat) {
    (i + 1 == |s| && (s[i] == '0' as int || s[i] == '/' as int)) || CutNumber(s, i)
  }

  lemma {:induction false} DigitRun(s: Bytes, i: nat, n: nat)
    requires i <= |s|
    ensures var j := SkipWhile(s, i, n, DIGITS_AND_UNDERSCORES);
      && (forall k :: i <= k < j ==> IsDigit(s[k]) || s[k] == '_' as int)
      && (n == 0 && i < j ==> IsDigit(s[i]))
      && (j < |s| && (n > 0 || i < j) ==> !IsDigit(s[j]) && s[j] != '_' as int)
      && (n == 0 && i == j && i < |s| ==> !IsDigit(s[i]))
    decreases |s| - i
  {
    if i < |s| {
      AsciiDecodes(s, i);
      if PeekAt(s, i).Rune? && DIGITS_AND_UNDERSCORES(n, PeekAt(s, i).c) {
        DigitRun(s, i + 1, n + 1);
      }
    }
  }

  lemma DigitsAreMaximal(s: Bytes, i: nat, j: nat, k: nat)
    requires Digits(s, i, j) && Digits(s, i, k)
    requires j == |s| || (!IsDigit(s[j]) && s[j] != '_' as int)
    ensures k <= j
  {
  }

  /** readInteger takes exactly the longest integer. */
  lemma IntegerIsDigits(s: Bytes, i: nat, j: nat)
    requires i <= |s|
    ensures Integer(s, i) == Some(j) ==> Digits(s, i, j) && (j < |s| ==> !IsDigit(s[j]) && s[j] != '_' as int)
    ensures Digits(s, i, j) && (j < |s| ==> s[j] < 0x80 && !IsDigit(s[j]) && s[j] != '_' as int) ==> Integer(s, i) == Some(j)
  {
    DigitRun(s, i, 0);
    var l := SkipWhile(s, i, 0, DIGITS_AND_UNDERSCORES);
    if Digits(s, i, j) && (j < |s| ==> s[j] < 0x80 && !IsDigit(s[j]) && s[j] != '_' as int) {
      DigitsAreMaximal(s, i, j, l);
      if j < |s| { AsciiDecodes(s, j); }
    }
  }

  lemma AsciiAt(s: Bytes, i: nat, c: Rune)
    requires 0 <= c < 0x80
    ensures At(s, i, c) <==> i < |s| && s[i] == c
  {
    if i < |s| { AsciiDecodes(s, i); }
  }

  lemma CutNumberIsEof(s: Bytes, i: nat)
    requires i < |s| && CutNumber(s, i)
    ensures DecimalNumber(s, i).LexEof?
  {
    hide Integer, PeekAt;
    var a: nat := if s[i] == '+' as int || s[i] == '-' as int then i + 1 else i;
    var d: nat :| Digits(s, a, d) && d < |s| && (d == |s| - 1 || (s[d] == '.' as int && Digits(s, d + 1, |s| - 1)));
    AsciiAt(s, i, '+' as int);
    AsciiAt(s, i, '-' as int);
    AsciiAt(s, d, '.' as int);
    AsciiAt(s, |s| - 1, 'e' as int);
    AsciiAt(s, |s| - 1, 'E' as int);
    IntegerIsDigits(s, a, d);
    if d < |s| - 1 {
      IntegerIsDigits(s, d + 1, |s| - 1);
    }
  }

  lemma EofIsCutNumber(s: Bytes, i: nat)
    requires i < |s| && DecimalNumber(s, i).LexEof?
    ensures CutNumber(s, i)
  {
    AsciiAt(s, i, '+' as int);
    AsciiAt(s, i, '-' as int);
    AsciiAt(s, |s| - 1, 'e' as int);
    AsciiAt(s, |s| - 1, 'E' as int);
    var a: nat := if s[i] == '+' as int || s[i] == '-' as int then i + 1 else i;
    var d := SignedInteger(s, i).value;
    IntegerIsDigits(s, a, d);
    assert Digits(s, a, d);
    AsciiAt(s, d, '.' as int);
    if s[d] == '.' as int {
      IntegerIsDigits(s, d + 1, |s| - 1);
    }
  }

  /** The scanner reports the end of the input at the end, and on an ending that strands, and nowhere else. */
  lemma EofExactly(s: Bytes, i: nat, bomChecked: bool)
    requires i <= |s|
    ensures NextToken(s, i, bomChecked).LexEof? <==> i == |s| || Strands(s, i)
    ensures NextToken(s, i, bomChecked).Lexed? ==> !NextToken(s, i, bomChecked).id.EOF?
  {
    hide Comment, Identifier, NumericBase, HashToken, DecimalNumber;
    if i < |s| {
      AsciiDecodes(s, i);
      if CutNumber(s, i) {
        CutNumberIsEof(s, i);
        CutStarts(s, i);
      }
      if DecimalNumber(s, i).LexEof? { EofIsCutNumber(s, i); }
    }
  }

  lemma CutStarts(s: Bytes, i: nat)
    requires i < |s| && CutNumber(s, i)
    ensures IsDigit(s[i]) || ((s[i] == '+' as int || s[i] == '-' as int) && i + 1 < |s| && IsDigit(s[i + 1]))
    ensures i + 1 < |s| && (IsDigit(s[i]) ==> s[i + 1] < 0x80 && s[i + 1] != 'x' as int && s[i + 1] != 'o' as int && s[i + 1] != 'b' as int)
  {}

  /** Every token ID the scanner produces is a plain one, not a class. */
  predicate Plain(id: TokenID) {
    IsValue(id) || IsComment(id) || id.Newline? || id.Whitespace? || id.TokenComment? || id.Continuation? || id.Semicolon?
    || id.BraceOpen? || id.BraceClose? || id.ParensOpen? || id.ParensClose? || id.Equals?
  }

  lemma TokensArePlain(s: Bytes, i: nat, bomChecked: bool)
    requires i <= |s|
    ensures NextToken(s, i, bomChecked).Lexed? ==> Plain(NextToken(s, i, bomChecked).id)
  {
    hide Comment, Identifier, NumericBase, HashToken, DecimalNumber;
    if i < |s| { AsciiDecodes(s, i); }
  }

  /** Whitespace that runs into an invalid rune loses its data, but then no token follows. */
  lemma UnlessWholeNothingFollows(s: Bytes, i: nat, bomChecked: bool)
    requires i <= |s|
    ensures var r := NextToken(s, i, bomChecked); r.Lexed? && !r.whole ==> NextToken(s, r.end, true) == LexError
  {
    hide Comment, Identifier, NumericBase, HashToken, DecimalNumber;
  }

  /** Whatever is scanned tiles the input up to the point where the scan stops: the end, or an ending that strands. */
  lemma {:induction false} ScanTiles(s: Bytes, i: nat, bomChecked: bool)
    requires i <= |s|
    ensures var r := ScanFrom(s, i, bomChecked); r.Scanned? ==>
      && i <= r.stop <= |s|
      && Tiles(s, r.tokens, i, r.stop)
      && (r.stop == |s| || Strands(s, r.stop))
      && forall k :: 0 <= k < |r.tokens| ==> Plain(r.tokens[k].id)
    decreases |s| - i
  {
    hide NextToken, ScanFrom, Tiles, Strands, Plain;
    EofExactly(s, i, bomChecked);
    TokensArePlain(s, i, bomChecked);
    UnlessWholeNothingFollows(s, i, bomChecked);
    ScanUnfolds(s, i, bomChecked);
    var r := NextToken(s, i, bomChecked);
    if r.Lexed? {
      ScanTiles(s, r.end, true);
      ScanUnfolds(s, r.end, true);
      if ScanFrom(s, r.end, true).Scanned? {
        TilesCons(s, r.id, i, r.end, ScanFrom(s, r.end, true).tokens, ScanFrom(s, r.end, true).stop);
      }
    } else {
      TilesNothing(s, i);
    }
  }

  lemma ScanUnfolds(s: Bytes, i: nat, bomChecked: bool)
    requires i <= |s|
    ensures NextToken(s, i, bomChecked).LexEof? ==> ScanFrom(s, i, bomChecked) == Scanned([], i)
    ensures NextToken(s, i, bomChecked).LexError? ==> ScanFrom(s, i, bomChecked) == Failed
    ensures NextToken(s, i, bomChecked).Lexed? ==> Unfolded(s, i, NextToken(s, i, bomChecked), ScanFrom(s, i, bomChecked))
  {
    hide NextToken;
  }

  predicate Unfolded(s: Bytes, i: nat, r: Lexed, scan: Scan)
    requires r.Lexed?
  {
    && i < r.end <= |s|
    && var rest := ScanFrom(s, r.end, true);
    if rest.Failed? then scan == Failed
    else scan == Scanned([Token(r.id, if r.whole then s[i..r.end] else [], i)] + rest.tokens, rest.stop)
  }

  lemma TilesNothing(s: Bytes, i: nat)
    ensures Tiles(s, [], i, i)
  {}

  lemma TilesCons(s: Bytes, id: TokenID, i: nat, j: nat, rest: seq<Token>, to: nat)
    requires !id.EOF? && i < j <= to <= |s| && Tiles(s, rest, j, to)
    ensures Tiles(s, [Token(id, s[i..j], i)] + rest, i, to)
  {
    assert ([Token(id, s[i..j], i)] + rest)[1..] == rest;
  }

  /** An input that ends in none of the bytes that can strand is covered whole. */
  lemma LosslessUnlessStranded(s: Bytes)
    requires s != [] ==> var c := s[|s| - 1]; c != '0' as int && c != '/' as int && c != 'e' as int && c != 'E' as int
    ensures var r := ScanFrom(s, 0, false); r.Scanned? ==> r.stop == |s| && Tiles(s, r.tokens, 0, |s|)
  {
    ScanTiles(s, 0, false);
  }

  lemma {:induction false} TilesConcat(source: Bytes, tokens: seq<Token>, from: nat, to: nat)
    requires Tiles(source, tokens, from, to) && to <= |source|
    ensures from <= to
    ensures Datas(tokens) == source[from..to]
    decreases |tokens|
  {
    if tokens != [] {
      TilesConcat(source, tokens[1..], from + |tokens[0].data|, to);
    }
  }

  /** The bytes of a token list, in order. */
  function Datas(tokens: seq<Token>): Bytes {
    if tokens == [] then [] else tokens[0].data + Datas(tokens[1..])
  }

  /** Joining the tokens gives back the input without its stranded ending. */
  lemma TokensJoinToInput(s: Bytes)
    ensures var r := ScanFrom(s, 0, false); r.Scanned? ==>
      r.stop <= |s| && Datas(r.tokens) == s[..r.stop] && (r.stop < |s| <==> Strands(s, r.stop))
  {
    hide Strands;
    ScanTiles(s, 0, false);
    var r := ScanFrom(s, 0, false);
    if r.Scanned? {
      TilesConcat(s, r.tokens, 0, r.stop);
      StrandsBeforeTheEnd(s, r.stop);
    }
  }

  lemma StrandsBeforeTheEnd(s: Bytes, i: nat)
    ensures Strands(s, i) ==> i < |s|
  {}

  /** Losslessness fails on an ending that strands: these two inputs give no token and no error. */
  lemma StrandedInputs()
    ensures ScanFrom(Chars("0"), 0, false) == Scanned([], 0)
    ensures ScanFrom(Chars("1e"), 0, false) == Scanned([], 0)
  {
    hide NextToken, ScanFrom;
    var zero := Chars("0");
    assert Strands(zero, 0);
    EofExactly(zero, 0, false);
    ScanUnfolds(zero, 0, false);
    var s := Chars("1e");
    assert Digits(s, 0, 1);
    assert CutNumber(s, 0);
    EofExactly(s, 0, false);
    ScanUnfolds(s, 0, false);
  }
}
