// Which texts the scanner reads as numbers: every prefixed number and every decimal, and nothing else.
module Numbers {
  import opened Basics
  import opened Tokens
  import opened Utf8
  import opened Lexer
  import Strings
  import Escapes
  import Lossless

  // ----- prefixed numbers -----

  /** The letter of a prefix, the token that it stands for, and the radix. */
  datatype Base = Base(letter: char, id: TokenID, radix: nat)

  predicate IsBase(base: Base) {
    base == Base('x', Hexadecimal, 16) || base == Base('o', Octal, 8) || base == Base('b', Binary, 2)
  }

  /** A digit below the radix, its letter in either case. */
  predicate DigitBelow(radix: nat, c: Rune)
    requires radix <= 16
  {
    exists n: nat {:trigger Strings.HexDigit(n)} :: n < radix && (c == Strings.HexDigit(n) || c == Escapes.CapitalDigit(n))
  }

  /** Digits and underscores, not beginning with an underscore. */
  predicate WordOf(radix: nat, w: Bytes)
    requires radix <= 16
  {
    w != [] && w[0] != '_' as int && forall k :: 0 <= k < |w| ==> DigitBelow(radix, w[k]) || w[k] == '_' as int
  }

  predicate BlankOrEnd(s: Bytes, i: nat)
    requires i <= |s|
  {
    i == |s| || (PeekAt(s, i).Rune? && (IsWhiteSpace(PeekAt(s, i).c) || IsNewline(PeekAt(s, i).c)))
  }

  predicate Prefixed(s: Bytes, i: nat, base: Base) {
    i + 1 < |s| && s[i] == '0' as int && s[i + 1] == base.letter as int
  }

  lemma DigitHasValue(radix: nat, c: Rune, n: nat)
    requires n < radix <= 16 && (c == Strings.HexDigit(n) || c == Escapes.CapitalDigit(n))
    ensures DigitBelow(radix, c)
  {}

  lemma DigitOf(radix: nat, c: Rune) returns (d: nat)
    requires radix <= 16 && DigitBelow(radix, c)
    ensures d < radix && (c == Strings.HexDigit(d) || c == Escapes.CapitalDigit(d))
  {
    d :| d < radix && (c == Strings.HexDigit(d) || c == Escapes.CapitalDigit(d));
  }

  /** A digit's value. */
  function ValueOf(c: Rune): int {
    if c <= '9' as int then c - '0' as int else if c < 'a' as int then c - 'A' as int + 10 else c - 'a' as int + 10
  }

  /** What the test behind each prefix accepts. */
  function Accepts(base: Base, c: Rune): bool {
    if base.letter == 'x' then Hex(c) else if base.letter == 'o' then Oct(c) else Bin(c)
  }

  lemma TestIs(base: Base, n: nat, c: Rune)
    requires IsBase(base) && n >= 2
    ensures AfterPrefix(base.id)(n, c) == Accepts(base, c)
  {
    hide Hex, Oct, Bin;
    if base.letter == 'x' {
      assert AfterPrefix(Hexadecimal)(n, c) == Hex(c);
    } else if base.letter == 'o' {
      assert AfterPrefix(Octal)(n, c) == Oct(c);
    } else {
      assert AfterPrefix(Binary)(n, c) == Bin(c);
    }
  }

  lemma TestHasValue(base: Base, c: Rune)
    requires IsBase(base) && Accepts(base, c) && c != '_' as int
    ensures 0 <= ValueOf(c) < base.radix <= 16
    ensures c == Strings.HexDigit(ValueOf(c)) || c == Escapes.CapitalDigit(ValueOf(c))
  {}

  lemma ValuePasses(base: Base, c: Rune, d: nat)
    requires IsBase(base) && d < base.radix && (c == Strings.HexDigit(d) || c == Escapes.CapitalDigit(d))
    ensures Accepts(base, c)
  {}

  lemma AcceptsAscii(base: Base, c: Rune)
    ensures Accepts(base, c) ==> 0x20 < c < 0x80
    ensures Accepts(base, '_' as int)
  {}

  /** The scanner's tests accept the digits below the radix and the underscore. */
  lemma TestIsRadix(base: Base, n: nat, c: Rune)
    requires IsBase(base) && n >= 2
    ensures AfterPrefix(base.id)(n, c) <==> DigitBelow(base.radix, c) || c == '_' as int
    ensures AfterPrefix(base.id)(n, c) ==> 0x20 < c < 0x80
  {
    hide AfterPrefix, Accepts, DigitBelow;
    TestIs(base, n, c);
    AcceptsAscii(base, c);
    if Accepts(base, c) && c != '_' as int {
      TestHasValue(base, c);
      DigitHasValue(base.radix, c, ValueOf(c));
    }
    if DigitBelow(base.radix, c) {
      var d := DigitOf(base.radix, c);
      ValuePasses(base, c, d);
    }
  }

  lemma {:induction false} BaseRun(base: Base, s: Bytes, i: nat, n: nat)
    requires IsBase(base) && n >= 2 && i <= |s|
    ensures var j := SkipWhile(s, i, n, AfterPrefix(base.id));
      && (forall k :: i <= k < j ==> DigitBelow(base.radix, s[k]) || s[k] == '_' as int)
      && (j < |s| ==> !DigitBelow(base.radix, s[j]) && s[j] != '_' as int)
    decreases |s| - i
  {
    hide DigitBelow;
    if i < |s| {
      AsciiDecodes(s, i);
      TestIsRadix(base, n, DecodeAt(s, i).c);
      TestIsRadix(base, n, s[i]);
      if PeekAt(s, i).Rune? && AfterPrefix(base.id)(n, PeekAt(s, i).c) { BaseRun(base, s, i + 1, n + 1); }
    }
  }

  /** Behind the prefix, the run of the base's characters is what the scanner reads. */
  lemma PrefixRun(base: Base, s: Bytes, i: nat)
    requires IsBase(base) && Prefixed(s, i, base)
    ensures SkipWhile(s, i, 0, AfterPrefix(base.id)) == SkipWhile(s, i + 2, 2, AfterPrefix(base.id))
    ensures PeekAt(s, i + 1) == Lexer.Rune(base.letter as int, 1)
    ensures forall b: bool :: NextToken(s, i, b) == LiftAs(base.id, NumericBase(s, i, base.id))
  {
    AsciiDecodes(s, i);
    AsciiDecodes(s, i + 1);
    hide NumericBase;
  }

  lemma BlankIsNoDigit(radix: nat, s: Bytes, i: nat)
    requires radix <= 16 && i < |s| && BlankOrEnd(s, i)
    ensures !DigitBelow(radix, s[i]) && s[i] != '_' as int
  {
    AsciiDecodes(s, i);
  }

  /** Behind a prefix, the scanner reads a number up to e, or fails. */
  lemma BehindPrefix(base: Base, s: Bytes, i: nat, e: nat)
    requires IsBase(base) && Prefixed(s, i, base)
    ensures NumericBase(s, i, base.id) == Some(e) <==> i + 2 <= e <= |s| && WordOf(base.radix, s[i + 2..e]) && BlankOrEnd(s, e)
  {
    hide DigitBelow, AfterPrefix;
    PrefixRun(base, s, i);
    BaseRun(base, s, i + 2, 2);
    var j := SkipWhile(s, i, 0, AfterPrefix(base.id));
    if i + 2 <= e <= |s| && WordOf(base.radix, s[i + 2..e]) && BlankOrEnd(s, e) {
      var w := s[i + 2..e];
      assert w[0] == s[i + 2];
      assert forall k :: i + 2 <= k < e ==> s[k] == w[k - (i + 2)];
      if e < |s| { BlankIsNoDigit(base.radix, s, e); }
    }
  }

  /**
   * Main result: the scanner reads a prefixed number exactly where its prefix stands in front of a word of the base's digits
   * and underscores that does not begin with an underscore, and is followed by a blank, a newline or the end. Everything else
   * behind such a prefix is refused.
   */
  lemma PrefixedExactly(base: Base, s: Bytes, i: nat, e: nat, bomChecked: bool)
    requires IsBase(base) && i <= |s|
    ensures NextToken(s, i, bomChecked) == Lexed(base.id, e, true) <==>
      Prefixed(s, i, base) && i + 2 <= e <= |s| && WordOf(base.radix, s[i + 2..e]) && BlankOrEnd(s, e)
    ensures Prefixed(s, i, base) ==> var r := NextToken(s, i, bomChecked);
      r.LexError? || (r.Lexed? && r.id == base.id && r.whole)
  {
    hide NumericBase, WordOf, BlankOrEnd;
    if Prefixed(s, i, base) {
      PrefixRun(base, s, i);
      BehindPrefix(base, s, i, e);
    } else if NextToken(s, i, bomChecked).Lexed? && NextToken(s, i, bomChecked).id == base.id {
      OnlyBehindPrefix(base, s, i, bomChecked);
      assert false;
    }
  }

  lemma IdentifierIsNoNumber(s: Bytes, i: nat)
    requires i < |s|
    ensures var r := Identifier(s, i); r.Some? ==> r.value.0 in {BareIdentifier, QuotedString, MultilineString}
    ensures At(s, i, '#' as int) && HashToken(s, i).Some? ==>
      HashToken(s, i).value.0 in {Boolean, Null, FloatKeyword, RawString, MultilineRawString}
  {
    hide PeekAt, QuotedEnd, MultiQuotedEnd, BareWord, ReadWhile, Raw, MultiRaw;
  }

  lemma OnlyBehindPrefix(base: Base, s: Bytes, i: nat, bomChecked: bool)
    requires IsBase(base) && i <= |s| && NextToken(s, i, bomChecked).Lexed? && NextToken(s, i, bomChecked).id == base.id
    ensures Prefixed(s, i, base)
  {
    hide NumericBase, DecimalNumber, Identifier, HashToken, Comment;
    if i < |s| {
      IdentifierIsNoNumber(s, i);
      AsciiDecodes(s, i);
      if i + 1 < |s| { AsciiDecodes(s, i + 1); }
    }
  }

  // ----- decimals -----

  /** An integer, possibly with a sign in front. */
  predicate Signed(s: Bytes, i: nat, j: nat) {
    Lossless.Digits(s, i, j) || (i < |s| && (s[i] == '+' as int || s[i] == '-' as int) && Lossless.Digits(s, i + 1, j))
  }

  /** A fraction, or nothing. */
  predicate Fractional(s: Bytes, i: nat, j: nat) {
    i == j || (i < |s| && s[i] == '.' as int && Lossless.Digits(s, i + 1, j))
  }

  /** An exponent, or nothing. */
  predicate Exponential(s: Bytes, i: nat, j: nat) {
    i == j || (i < |s| && (s[i] == 'e' as int || s[i] == 'E' as int) && Signed(s, i + 1, j))
  }

  /** The grammar of decimal numbers: a signed integer, an optional fraction and an optional exponent. */
  ghost predicate DecimalAt(s: Bytes, i: nat, e: nat) {
    exists j: nat, k: nat :: Signed(s, i, j) && Fractional(s, j, k) && Exponential(s, k, e)
  }

  predicate SeparatorOrEnd(s: Bytes, i: nat)
    requires i <= |s|
  {
    BlankOrEnd(s, i) || (i < |s| && s[i] == ';' as int)
  }

  /** What is behind an integer does not continue it. */
  predicate Stops(s: Bytes, i: nat)
    requires i <= |s|
  {
    i == |s| || (PeekAt(s, i).Rune? && !IsDigit(s[i]) && s[i] != '_' as int)
  }

  lemma IntegerReads(s: Bytes, i: nat, j: nat)
    requires i <= |s|
    ensures Integer(s, i) == Some(j) <==> Lossless.Digits(s, i, j) && Stops(s, j)
  {
    Lossless.DigitRun(s, i, 0);
  }

  lemma SignedReads(s: Bytes, i: nat, j: nat)
    requires i <= |s|
    ensures SignedInteger(s, i) == Some(j) <==> Signed(s, i, j) && Stops(s, j)
  {
    hide Integer, Stops;
    Lossless.AsciiAt(s, i, '+' as int);
    Lossless.AsciiAt(s, i, '-' as int);
    IntegerReads(s, i, j);
    if i < |s| { IntegerReads(s, i + 1, j); }
  }

  lemma FractionReads(s: Bytes, i: nat, j: nat)
    requires i <= |s|
    ensures Fraction(s, i) == Some(j) <==>
      Fractional(s, i, j) && (i == j ==> !At(s, i, '.' as int)) && (i < j ==> Stops(s, j))
  {
    hide Integer, Stops;
    Lossless.AsciiAt(s, i, '.' as int);
    if i < |s| { IntegerReads(s, i + 1, j); }
  }

  lemma SeparatorStops(s: Bytes, i: nat)
    requires i <= |s| && SeparatorOrEnd(s, i)
    ensures Stops(s, i) && !At(s, i, '.' as int) && !AtExponent(s, i)
  {
    if i < |s| { AsciiDecodes(s, i); }
  }

  lemma MarkStops(s: Bytes, i: nat)
    requires i < |s| && (s[i] == '.' as int || s[i] == 'e' as int || s[i] == 'E' as int)
    ensures Stops(s, i)
    ensures AtExponent(s, i) <==> s[i] != '.' as int
    ensures At(s, i, '.' as int) <==> s[i] == '.' as int
  {
    AsciiDecodes(s, i);
  }

  lemma NumberEnds(s: Bytes, i: nat)
    requires i <= |s| && Stops(s, i)
    ensures NumberEnd(s, i) == if SeparatorOrEnd(s, i) then Lexed(Decimal, i, true) else LexError
  {
    if i < |s| { AsciiDecodes(s, i); }
  }

  /** A number in the grammar, in front of a separator or the end, is read whole. */
  lemma DecimalReads(s: Bytes, i: nat, e: nat)
    requires i < e <= |s| && DecimalAt(s, i, e) && SeparatorOrEnd(s, e)
    ensures DecimalNumber(s, i) == Lexed(Decimal, e, true)
  {
    hide SignedInteger, Fraction, NumberEnd, AtExponent, At, PeekAt, SeparatorOrEnd, Stops;
    var j: nat, k: nat :| Signed(s, i, j) && Fractional(s, j, k) && Exponential(s, k, e);
    SeparatorStops(s, e);
    NumberEnds(s, e);
    if k < e { MarkStops(s, k); }
    if j < k { MarkStops(s, j); }
    SignedReads(s, i, j);
    FractionReads(s, j, k);
    if k < e { SignedReads(s, k + 1, e); ExponentRead(s, k, e); }
  }

  lemma ExponentRead(s: Bytes, k: nat, e: nat)
    requires k < e && Exponential(s, k, e)
    ensures k + 1 < |s| && k < |s| && (s[k] == 'e' as int || s[k] == 'E' as int) && Signed(s, k + 1, e)
  {}

  /** What is read as a decimal is in the grammar. */
  lemma ReadIsDecimal(s: Bytes, i: nat, e: nat)
    requires i <= |s| && DecimalNumber(s, i) == Lexed(Decimal, e, true)
    ensures i < e <= |s| && DecimalAt(s, i, e) && SeparatorOrEnd(s, e)
  {
    hide SignedInteger, Fraction, NumberEnd, At, PeekAt, SeparatorOrEnd, Stops;
    var j := SignedInteger(s, i).value;
    SignedReads(s, i, j);
    var k := Fraction(s, j).value;
    FractionReads(s, j, k);
    Lossless.AsciiAt(s, k, 'e' as int);
    Lossless.AsciiAt(s, k, 'E' as int);
    if AtExponent(s, k) {
      var l := SignedInteger(s, k + 1).value;
      SignedReads(s, k + 1, l);
      NumberEnds(s, l);
    } else {
      NumberEnds(s, k);
      assert Exponential(s, k, k);
    }
  }

  lemma DecimalStarts(s: Bytes, i: nat, e: nat)
    requires DecimalAt(s, i, e)
    ensures i < |s| && i < e && (IsDigit(s[i]) || ((s[i] == '+' as int || s[i] == '-' as int) && i + 1 < |s| && IsDigit(s[i + 1])))
  {}

  lemma PrefixIsNoDecimal(base: Base, s: Bytes, i: nat)
    requires IsBase(base) && Prefixed(s, i, base)
    ensures !DecimalNumber(s, i).Lexed?
  {
    AsciiDecodes(s, i);
    AsciiDecodes(s, i + 1);
    assert SkipWhile(s, i + 1, 1, DIGITS_AND_UNDERSCORES) == i + 1;
    assert Integer(s, i) == Some(i + 1);
  }

  /** How the scanner comes to read a decimal. */
  lemma DecimalDispatch(s: Bytes, i: nat, bomChecked: bool)
    requires i <= |s|
    ensures var r := NextToken(s, i, bomChecked);
      if i < |s| && s[i] == '0' as int && i + 1 == |s| then r == LexEof
      else if i + 1 < |s| && s[i] == '0' as int && (s[i + 1] == 'x' as int || s[i + 1] == 'o' as int || s[i + 1] == 'b' as int) then
        !(r.Lexed? && r.id.Decimal?)
      else if i < |s| && s[i] == '0' as int && PeekAt(s, i + 1).Invalid? then r == LexError
      else if i < |s| && IsDigit(s[i]) then r == DecimalNumber(s, i)
      else if i + 1 < |s| && (s[i] == '+' as int || s[i] == '-' as int) && IsDigit(s[i + 1]) then r == DecimalNumber(s, i)
      else !(r.Lexed? && r.id.Decimal?)
  {
    hide NumericBase, DecimalNumber, Identifier, HashToken, Comment;
    if i < |s| {
      IdentifierIsNoNumber(s, i);
      AsciiDecodes(s, i);
      if i + 1 < |s| { AsciiDecodes(s, i + 1); }
    }
  }

  predicate StartsNumber(s: Bytes, i: nat) {
    i < |s| && (IsDigit(s[i]) || ((s[i] == '+' as int || s[i] == '-' as int) && i + 1 < |s| && IsDigit(s[i + 1])))
  }

  /**
   * Main result: the scanner reads a decimal exactly where one of the grammar stands in front of a separator or the end, unless
   * it is a 0 that ends the input. Whatever else starts like a number, without a prefix of another base, is refused, or taken
   * for the end of the input.
   */
  lemma DecimalsExactly(s: Bytes, i: nat, e: nat, bomChecked: bool)
    requires i <= |s|
    ensures NextToken(s, i, bomChecked) == Lexed(Decimal, e, true) <==>
      i < e <= |s| && DecimalAt(s, i, e) && SeparatorOrEnd(s, e) && !(s[i] == '0' as int && i + 1 == |s|)
    ensures StartsNumber(s, i) && (forall base | IsBase(base) :: !Prefixed(s, i, base)) ==> var r := NextToken(s, i, bomChecked);
      r.LexError? || r.LexEof? || (r.Lexed? && r.id == Decimal && r.whole)
  {
    hide NextToken, DecimalNumber, DecimalAt, SeparatorOrEnd;
    DecimalDispatch(s, i, bomChecked);
    if i < e <= |s| && DecimalAt(s, i, e) && SeparatorOrEnd(s, e) {
      DecimalStarts(s, i, e);
      DecimalReads(s, i, e);
    }
    if DecimalNumber(s, i) == Lexed(Decimal, e, true) { ReadIsDecimal(s, i, e); }
    NoPrefixes(s, i);
    if i + 1 < |s| && s[i] == '0' as int && PeekAt(s, i + 1).Invalid? { ZeroBeforeInvalid(s, i); }
  }

  lemma ZeroBeforeInvalid(s: Bytes, i: nat)
    requires i + 1 < |s| && s[i] == '0' as int && PeekAt(s, i + 1).Invalid?
    ensures DecimalNumber(s, i).LexError?
  {
    AsciiDecodes(s, i);
    assert SkipWhile(s, i + 1, 1, DIGITS_AND_UNDERSCORES) == i + 1;
    assert Integer(s, i) == None;
  }

  /** A prefix of another base starts no decimal. */
  lemma NoPrefixes(s: Bytes, i: nat)
    requires i <= |s|
    ensures forall base | IsBase(base) && Prefixed(s, i, base) :: !DecimalNumber(s, i).Lexed?
    ensures Prefixed(s, i, Base('x', Hexadecimal, 16)) || Prefixed(s, i, Base('o', Octal, 8)) || Prefixed(s, i, Base('b', Binary, 2)) <==>
      i + 1 < |s| && s[i] == '0' as int && (s[i + 1] == 'x' as int || s[i + 1] == 'o' as int || s[i + 1] == 'b' as int)
  {
    hide DecimalNumber;
    forall base | IsBase(base) && Prefixed(s, i, base) ensures !DecimalNumber(s, i).Lexed? { PrefixIsNoDecimal(base, s, i); }
  }
}
