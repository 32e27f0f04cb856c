// The scanner looks no further than one rune behind the token it reads, so it reads the same token wherever it finds the
// same runes.
module Locality {
  import opened Basics
  import opened Tokens
  import opened Utf8
  import opened Lexer

  /** From i to e, the end included, t looks like s, d bytes further on. */
  ghost predicate View(s: Bytes, i: nat, e: nat, t: Bytes, d: nat) {
    && i <= e <= |s| && e + d <= |t|
    && (forall k: nat {:trigger PeekAt(s, k)} :: i <= k <= e ==> PeekAt(t, k + d) == PeekAt(s, k))
    && (forall k: nat {:trigger s[k]} :: i <= k < e ==> t[k + d] == s[k])
  }

  predicate Within(j: Option<nat>, e: nat) { j.Some? && j.value <= e }

  function Later(j: Option<nat>, d: nat): Option<nat> {
    match j case None => None case Some(k) => Some(k + d)
  }

  predicate TextWithin(r: Option<(TokenID, nat)>, e: nat) { r.Some? && r.value.1 <= e }

  function TextLater(r: Option<(TokenID, nat)>, d: nat): Option<(TokenID, nat)> {
    match r case None => None case Some(p) => Some((p.0, p.1 + d))
  }

  lemma ViewPart(s: Bytes, i: nat, e: nat, t: Bytes, d: nat, j: nat, f: nat)
    requires View(s, i, e, t, d) && i <= j <= f <= e
    ensures View(s, j, f, t, d) && t[j + d..f + d] == s[j..f]
  {
    hide PeekAt;
  }

  lemma AtView(s: Bytes, i: nat, e: nat, t: Bytes, d: nat, k: nat, c: Rune)
    requires View(s, i, e, t, d) && i <= k <= e
    ensures At(t, k + d, c) <==> At(s, k, c)
  {
    hide PeekAt;
  }

  // ----- texts that look alike -----

  lemma PrefixDecodes(s: Bytes, t: Bytes, m: nat, k: nat)
    requires k < m <= |s| && m <= |t| && s[..m] == t[..m] && !Continues(s, m) && !Continues(t, m)
    ensures DecodeAt(s, k) == DecodeAt(t, k)
  {
    assert forall j :: 0 <= j < m ==> s[j] == s[..m][j] == t[..m][j] == t[j];
  }

  /** Two texts that begin alike, up to bytes that start new runes. */
  lemma PrefixView(s: Bytes, t: Bytes, m: nat, i: nat, e: nat)
    requires i <= e < m <= |s| && m <= |t| && s[..m] == t[..m] && !Continues(s, m) && !Continues(t, m)
    ensures View(s, i, e, t, 0)
  {
    hide DecodeAt, Continues;
    forall k: nat | i <= k <= e ensures PeekAt(t, k + 0) == PeekAt(s, k) { PrefixDecodes(s, t, m, k); }
    forall k: nat | i <= k < e ensures t[k + 0] == s[k] { assert s[..m][k] == t[..m][k]; }
  }

  /** Two texts that begin alike, up to and with the rune at e. */
  lemma PrefixRuneView(s: Bytes, t: Bytes, m: nat, i: nat, e: nat)
    requires i <= e <= |s| && PeekAt(s, e).Rune? && e + PeekAt(s, e).size <= m <= |s| && m <= |t| && s[..m] == t[..m]
    ensures View(s, i, e, t, 0)
  {
    var n := PeekAt(s, e).size;
    assert s[e..e + n] == s[..m][e..e + n] == t[e..e + n];
    DecodeLocal(s, e, t, e);
    assert s[..e] == s[..m][..e] == t[..e] && s[e] == s[..m][e] == t[e];
    assert !Continues(s, e) && !Continues(t, e);
    hide DecodeAt, Continues;
    forall k: nat | i <= k <= e ensures PeekAt(t, k + 0) == PeekAt(s, k) {
      if k < e { PrefixDecodes(s, t, e, k); }
    }
    forall k: nat | i <= k < e ensures t[k + 0] == s[k] { assert s[..m][k] == t[..m][k]; }
  }

  lemma SuffixByte(s: Bytes, t: Bytes, x: nat, d: nat, j: nat)
    requires x <= j && x <= |s| && |t| == |s| + d && t[x + d..] == s[x..]
    ensures (Continues(t, j + d) <==> Continues(s, j)) && (j < |s| ==> t[j + d] == s[j])
  {
    if j < |s| { assert t[x + d..][j - x] == s[x..][j - x]; }
  }

  lemma SuffixDecodes(s: Bytes, t: Bytes, x: nat, d: nat, k: nat)
    requires x <= k <= |s| && |t| == |s| + d && t[x + d..] == s[x..]
    ensures DecodeAt(t, k + d) == DecodeAt(s, k)
  {
    SuffixByte(s, t, x, d, k);
    SuffixByte(s, t, x, d, k + 1);
    SuffixByte(s, t, x, d, k + 2);
    SuffixByte(s, t, x, d, k + 3);
  }

  /** Two texts that end alike. */
  lemma SuffixView(s: Bytes, t: Bytes, x: nat, d: nat)
    requires x <= |s| && |t| == |s| + d && t[x + d..] == s[x..]
    ensures View(s, x, |s|, t, d)
  {
    hide DecodeAt;
    forall k: nat | x <= k <= |s| ensures PeekAt(t, k + d) == PeekAt(s, k) { SuffixDecodes(s, t, x, d, k); }
    forall k: nat | x <= k < |s| ensures t[k + d] == s[k] { assert s[x..][k - x] == t[x + d..][k - x]; }
  }

  // ----- runs -----

  lemma {:induction false} SkipView(s: Bytes, i: nat, n: nat, p: Test, e: nat, t: Bytes, d: nat)
    requires View(s, i, e, t, d) && SkipWhile(s, i, n, p) <= e
    ensures SkipWhile(t, i + d, n, p) == SkipWhile(s, i, n, p) + d
    decreases |s| - i
  {
    hide DecodeAt;
    var r := PeekAt(s, i);
    if r.Rune? && p(n, r.c) { SkipView(s, i + r.size, n + 1, p, e, t, d); }
  }

  lemma {:induction false} SkipUntilView(s: Bytes, i: nat, stop: Rune -> bool, e: nat, t: Bytes, d: nat)
    requires View(s, i, e, t, d) && SkipUntil(s, i, stop) <= e
    ensures SkipUntil(t, i + d, stop) == SkipUntil(s, i, stop) + d
    decreases |s| - i
  {
    hide DecodeAt;
    var r := PeekAt(s, i);
    if r.Rune? && !stop(r.c) { SkipUntilView(s, i + r.size, stop, e, t, d); }
  }

  lemma RunView(s: Bytes, i: nat, p: Test, min: nat, e: nat, t: Bytes, d: nat)
    requires View(s, i, e, t, d) && Within(ReadWhile(s, i, p, min), e)
    ensures ReadWhile(t, i + d, p, min) == Later(ReadWhile(s, i, p, min), d)
  {
    hide PeekAt, SkipWhile;
    SkipView(s, i, 0, p, e, t, d);
  }

  // ----- comments and strings -----

  lemma {:induction false} CommentView(s: Bytes, i: nat, depth: int, e: nat, t: Bytes, d: nat)
    requires View(s, i, e, t, d) && Within(Comment(s, i, depth), e)
    ensures Comment(t, i + d, depth) == Later(Comment(s, i, depth), d)
    decreases |s| - i
  {
    hide DecodeAt, At, View;
    var r := PeekAt(s, i);
    PeekView(s, i, e, t, d);
    AtView(s, i, e, t, d, i + r.size, '/' as int);
    AtView(s, i, e, t, d, i + r.size, '*' as int);
    ViewLater(s, i, e, t, d);
    if r.c == '*' as int && At(s, i + r.size, '/' as int) {
      if depth - 1 != 0 { CommentView(s, i + r.size + 1, depth - 1, e, t, d); }
    } else if r.c == '/' as int && At(s, i + r.size, '*' as int) {
      CommentView(s, i + r.size + 1, depth + 1, e, t, d);
    } else {
      CommentView(s, i + r.size, depth, e, t, d);
    }
  }

  lemma PeekView(s: Bytes, i: nat, e: nat, t: Bytes, d: nat)
    requires View(s, i, e, t, d)
    ensures i <= e <= |s| && e + d <= |t| && PeekAt(t, i + d) == PeekAt(s, i)
  {}

  lemma ViewLater(s: Bytes, i: nat, e: nat, t: Bytes, d: nat)
    requires View(s, i, e, t, d)
    ensures forall j: nat {:trigger View(s, j, e, t, d)} :: i <= j <= e ==> View(s, j, e, t, d)
  {
    hide PeekAt;
  }

  lemma {:induction false} QuotedView(s: Bytes, i: nat, escaped: bool, e: nat, t: Bytes, d: nat)
    requires View(s, i, e, t, d) && Within(QuotedEnd(s, i, escaped), e)
    ensures QuotedEnd(t, i + d, escaped) == Later(QuotedEnd(s, i, escaped), d)
    decreases |s| - i
  {
    hide DecodeAt, View, IsNewline, IsWhiteSpace, SkipWhile;
    var r := PeekAt(s, i);
    PeekView(s, i, e, t, d);
    ViewLater(s, i, e, t, d);
    if escaped {
      if IsNewline(r.c) || IsWhiteSpace(r.c) {
        var k := SkipWhile(s, i + r.size, 0, LINE_SPACE);
        SkipView(s, i + r.size, 0, LINE_SPACE, e, t, d);
        QuotedView(s, k, false, e, t, d);
      } else {
        QuotedView(s, i + r.size, false, e, t, d);
      }
    } else if r.c == '\\' as int {
      QuotedView(s, i + r.size, true, e, t, d);
    } else if r.c != '"' as int {
      QuotedView(s, i + r.size, false, e, t, d);
    }
  }

  lemma {:induction false} MultiQuotedView(s: Bytes, i: nat, escaped: bool, quotes: nat, e: nat, t: Bytes, d: nat)
    requires View(s, i, e, t, d) && Within(MultiQuotedEnd(s, i, escaped, quotes), e)
    ensures MultiQuotedEnd(t, i + d, escaped, quotes) == Later(MultiQuotedEnd(s, i, escaped, quotes), d)
    decreases |s| - i
  {
    hide DecodeAt, View;
    var r := PeekAt(s, i);
    PeekView(s, i, e, t, d);
    ViewLater(s, i, e, t, d);
    if escaped {
      MultiQuotedView(s, i + r.size, false, 0, e, t, d);
    } else if r.c == '\\' as int {
      MultiQuotedView(s, i + r.size, true, 0, e, t, d);
    } else if r.c == '"' as int {
      if quotes + 1 < 3 { MultiQuotedView(s, i + r.size, false, quotes + 1, e, t, d); }
    } else {
      MultiQuotedView(s, i + r.size, false, 0, e, t, d);
    }
  }

  lemma QuotedTextView(s: Bytes, i: nat, e: nat, t: Bytes, d: nat)
    requires i < |s| && View(s, i, e, t, d)
    requires TextWithin(QuotedText(s, i), e)
    ensures i + d < |t| && QuotedText(t, i + d) == TextLater(QuotedText(s, i), d)
  {
    hide At, View, QuotedEnd, MultiQuotedEnd;
    PeekView(s, i, e, t, d);
    ViewLater(s, i, e, t, d);
    AtView(s, i, e, t, d, i + 1, '"' as int);
    if At(s, i + 1, '"' as int) {
      QuoteIsOne(s, i + 1);
      QuotedThenMore(s, i);
      AtView(s, i, e, t, d, i + 2, '"' as int);
    }
    if At(s, i + 1, '"' as int) && At(s, i + 2, '"' as int) {
      MultiQuotedView(s, i + 3, false, 0, e, t, d);
    } else {
      QuotedView(s, i + 1, false, e, t, d);
    }
  }

  lemma QuoteIsOne(s: Bytes, i: nat)
    requires At(s, i, '"' as int)
    ensures i + 1 <= |s|
  {}

  /** A second quote is part of what is read, so the rune behind it is seen. */
  lemma QuotedThenMore(s: Bytes, i: nat)
    requires i < |s| && At(s, i + 1, '"' as int) && QuotedText(s, i).Some?
    ensures i + 2 <= QuotedText(s, i).value.1
  {}

  // ----- raw strings -----

  lemma {:induction false} HashesView(s: Bytes, i: nat, max: nat, e: nat, t: Bytes, d: nat, most: nat)
    requires View(s, i, e, t, d) && i + Hashes(s, i, max) <= e
    requires max == most || (Hashes(s, i, max) < max && Hashes(s, i, max) < most)
    ensures Hashes(t, i + d, most) == Hashes(s, i, max)
    decreases max
  {
    hide At, View;
    PeekView(s, i, e, t, d);
    ViewLater(s, i, e, t, d);
    AtView(s, i, e, t, d, i, '#' as int);
    if max > 0 && At(s, i, '#' as int) { HashesView(s, i + 1, max - 1, e, t, d, most - 1); }
  }

  lemma {:induction false} RawView(s: Bytes, i: nat, n: nat, e: nat, t: Bytes, d: nat)
    requires View(s, i, e, t, d) && Within(Raw(s, i, n), e)
    ensures Raw(t, i + d, n) == Later(Raw(s, i, n), d)
    decreases |s| - i
  {
    hide DecodeAt, View, Hashes, IsNewline;
    var r := PeekAt(s, i);
    PeekView(s, i, e, t, d);
    ViewLater(s, i, e, t, d);
    if r.c == '"' as int {
      var m := Hashes(s, i + r.size, n);
      HashesView(s, i + r.size, n, e, t, d, n);
      if m != n { RawView(s, i + r.size + m, n, e, t, d); }
    } else {
      RawView(s, i + r.size, n, e, t, d);
    }
  }

  lemma {:induction false} MultiRawView(s: Bytes, i: nat, quotes: nat, n: nat, e: nat, t: Bytes, d: nat)
    requires View(s, i, e, t, d) && Within(MultiRaw(s, i, quotes, n), e)
    ensures MultiRaw(t, i + d, quotes, n) == Later(MultiRaw(s, i, quotes, n), d)
    decreases |s| - i
  {
    hide DecodeAt, View, Hashes;
    var r := PeekAt(s, i);
    PeekView(s, i, e, t, d);
    ViewLater(s, i, e, t, d);
    if r.c == '"' as int {
      if quotes + 1 >= 3 {
        var m := Hashes(s, i + r.size, n);
        HashesView(s, i + r.size, n, e, t, d, n);
        if m != n { MultiRawView(s, i + r.size + m, 0, n, e, t, d); }
      } else {
        MultiRawView(s, i + r.size, quotes + 1, n, e, t, d);
      }
    } else {
      MultiRawView(s, i + r.size, 0, n, e, t, d);
    }
  }

  lemma RawTextView(s: Bytes, i: nat, n: nat, e: nat, t: Bytes, d: nat)
    requires i < |s| && View(s, i, e, t, d) && n > 0 && At(s, i, '"' as int)
    requires TextWithin(RawText(s, i, n), e)
    ensures i + d < |t| && RawText(t, i + d, n) == TextLater(RawText(s, i, n), d)
  {
    hide At, View, Raw, MultiRaw;
    PeekView(s, i, e, t, d);
    ViewLater(s, i, e, t, d);
    AtView(s, i, e, t, d, i + 1, '"' as int);
    if At(s, i + 1, '"' as int) {
      QuoteIsOne(s, i + 1);
      RawThenMore(s, i, n);
      AtView(s, i, e, t, d, i + 2, '"' as int);
    }
    if At(s, i + 1, '"' as int) && At(s, i + 2, '"' as int) {
      MultiRawView(s, i + 3, 0, n, e, t, d);
    } else {
      RawView(s, i + 1, n, e, t, d);
    }
  }

  lemma RawThenMore(s: Bytes, i: nat, n: nat)
    requires i < |s| && At(s, i + 1, '"' as int) && RawText(s, i, n).Some?
    ensures i + 2 <= RawText(s, i, n).value.1
  {}

  lemma HashView(s: Bytes, i: nat, e: nat, t: Bytes, d: nat)
    requires i < |s| && At(s, i, '#' as int) && View(s, i, e, t, d) && TextWithin(HashToken(s, i), e)
    ensures i + d < |t| && At(t, i + d, '#' as int) && HashToken(t, i + d) == TextLater(HashToken(s, i), d)
  {
    hide At, View, RawText, KeywordToken, SkipWhile, Hashes;
    PeekView(s, i, e, t, d);
    ViewLater(s, i, e, t, d);
    var n := Hashes(s, i, |s| - i);
    AtView(s, i, e, t, d, i, '#' as int);
    HashesAreRead(s, i);
    HashesView(s, i, |s| - i, e, t, d, |t| - (i + d));
    AtView(s, i, e, t, d, i + n, '"' as int);
    PeekView(s, i + n, e, t, d);
    if At(s, i + n, '"' as int) {
      RawTextView(s, i + n, n, e, t, d);
    } else {
      RunView(s, i + n, KEYWORD, 1, e, t, d);
      ViewPart(s, i, e, t, d, i + n, ReadWhile(s, i + n, KEYWORD, 1).value);
    }
  }

  lemma HashesAreRead(s: Bytes, i: nat)
    requires i < |s| && At(s, i, '#' as int) && HashToken(s, i).Some?
    ensures var n := Hashes(s, i, |s| - i); 0 < n && i + n < HashToken(s, i).value.1 && n < |s| - i
  {
    hide RawText, KeywordToken, SkipWhile;
  }

  // ----- numbers -----

  lemma IntegerView(s: Bytes, i: nat, e: nat, t: Bytes, d: nat)
    requires View(s, i, e, t, d) && Within(Integer(s, i), e)
    ensures Integer(t, i + d) == Later(Integer(s, i), d)
  {
    RunView(s, i, DIGITS_AND_UNDERSCORES, 1, e, t, d);
  }

  lemma SignedView(s: Bytes, i: nat, e: nat, t: Bytes, d: nat)
    requires View(s, i, e, t, d) && Within(SignedInteger(s, i), e)
    ensures SignedInteger(t, i + d) == Later(SignedInteger(s, i), d)
  {
    hide View, At, Integer;
    PeekView(s, i, e, t, d);
    ViewLater(s, i, e, t, d);
    AtView(s, i, e, t, d, i, '+' as int);
    AtView(s, i, e, t, d, i, '-' as int);
    IntegerView(s, if At(s, i, '+' as int) || At(s, i, '-' as int) then i + 1 else i, e, t, d);
  }

  lemma FractionView(s: Bytes, i: nat, e: nat, t: Bytes, d: nat)
    requires View(s, i, e, t, d) && Within(Fraction(s, i), e)
    ensures Fraction(t, i + d) == Later(Fraction(s, i), d)
  {
    hide View, At, Integer;
    PeekView(s, i, e, t, d);
    ViewLater(s, i, e, t, d);
    AtView(s, i, e, t, d, i, '.' as int);
    if At(s, i, '.' as int) { IntegerView(s, i + 1, e, t, d); }
  }

  lemma DecimalView(s: Bytes, i: nat, e: nat, t: Bytes, d: nat)
    requires i <= |s| && View(s, i, e, t, d) && DecimalNumber(s, i) == Lexed(Decimal, e, true)
    ensures DecimalNumber(t, i + d) == Lexed(Decimal, e + d, true)
  {
    hide View, At, SignedInteger, Fraction;
    PeekView(s, i, e, t, d);
    ViewLater(s, i, e, t, d);
    SignedView(s, i, e, t, d);
    var j := SignedInteger(s, i).value;
    FractionView(s, j, e, t, d);
    var k := Fraction(s, j).value;
    AtView(s, i, e, t, d, k, 'e' as int);
    AtView(s, i, e, t, d, k, 'E' as int);
    PeekView(s, e, e, t, d);
    if AtExponent(s, k) {
      SignedView(s, k + 1, e, t, d);
    }
  }

  lemma BaseView(s: Bytes, i: nat, id: TokenID, e: nat, t: Bytes, d: nat)
    requires i <= |s| && View(s, i, e, t, d) && NumericBase(s, i, id) == Some(e)
    ensures NumericBase(t, i + d, id) == Some(e + d)
  {
    hide PeekAt, SkipWhile;
    RunView(s, i, AfterPrefix(id), 3, e, t, d);
    PeekView(s, e, e, t, d);
    assert t[i + 2 + d] == s[i + 2];
  }

  lemma ZeroView(s: Bytes, i: nat, id: TokenID, e: nat, t: Bytes, d: nat)
    requires i < |s| && At(s, i, '0' as int) && View(s, i, e, t, d) && ZeroToken(s, i) == Lexed(id, e, true)
    ensures i + d < |t| && At(t, i + d, '0' as int) && ZeroToken(t, i + d) == Lexed(id, e + d, true)
  {
    hide View, At, NumericBase, DecimalNumber;
    PeekView(s, i, e, t, d);
    ViewLater(s, i, e, t, d);
    AtView(s, i, e, t, d, i, '0' as int);
    PeekView(s, i + 1, e, t, d);
    var c := PeekAt(s, i + 1).c;
    if c == 'x' as int {
      BaseView(s, i, Hexadecimal, e, t, d);
    } else if c == 'o' as int {
      BaseView(s, i, Octal, e, t, d);
    } else if c == 'b' as int {
      BaseView(s, i, Binary, e, t, d);
    } else {
      DecimalView(s, i, e, t, d);
    }
  }

  // ----- words -----

  lemma WordView(s: Bytes, i: nat, e: nat, t: Bytes, d: nat)
    requires i <= |s| && View(s, i, e, t, d) && BareWord(s, i) == Some(e)
    ensures BareWord(t, i + d) == Some(e + d)
  {
    hide PeekAt, SkipWhile, Reserved, IsBareStart;
    PeekView(s, i, e, t, d);
    RunView(s, i, BARE_CHARS, 1, e, t, d);
    FirstIsRead(s, i);
    PeekView(s, i + PeekAt(s, i).size, e, t, d);
    ViewPart(s, i, e, t, d, i, e);
  }

  lemma FirstIsRead(s: Bytes, i: nat)
    requires i <= |s| && BareWord(s, i).Some?
    ensures PeekAt(s, i).Rune? && i + PeekAt(s, i).size <= BareWord(s, i).value
  {
    hide Reserved, DecodeAt;
  }

  lemma IdentifierView(s: Bytes, i: nat, e: nat, t: Bytes, d: nat)
    requires i < |s| && View(s, i, e, t, d) && Identifier(s, i).Some? && Identifier(s, i).value.1 == e
    ensures i + d < |t| && Identifier(t, i + d) == TextLater(Identifier(s, i), d)
  {
    hide View, QuotedText, BareWord, IsPunctuation, IsBareStart;
    PeekView(s, i, e, t, d);
    ViewLater(s, i, e, t, d);
    var r := PeekAt(s, i);
    if r.c == '"' as int {
      QuotedTextView(s, i, e, t, d);
    } else {
      WordView(s, i, e, t, d);
      FirstIsRead(s, i);
      PeekView(s, i + r.size, e, t, d);
      AtView(s, i, e, t, d, e, '"' as int);
      AtView(s, i, e, t, d, e, '#' as int);
      ViewPart(s, i, e, t, d, i, e);
    }
  }

  // ----- tokens -----

  lemma SlashView(s: Bytes, i: nat, id: TokenID, e: nat, t: Bytes, d: nat)
    requires i < |s| && At(s, i, '/' as int) && View(s, i, e, t, d) && SlashToken(s, i) == Lexed(id, e, true)
    ensures i + d < |t| && At(t, i + d, '/' as int) && SlashToken(t, i + d) == Lexed(id, e + d, true)
  {
    hide View, At, Comment, SkipUntil;
    PeekView(s, i, e, t, d);
    ViewLater(s, i, e, t, d);
    AtView(s, i, e, t, d, i, '/' as int);
    PeekView(s, i + 1, e, t, d);
    var c := PeekAt(s, i + 1).c;
    if c == '*' as int {
      CommentView(s, i, 0, e, t, d);
    } else if c == '/' as int {
      SkipUntilView(s, i + 2, IsNewline, e, t, d);
      PeekView(s, e, e, t, d);
    }
  }

  lemma BlankView(s: Bytes, i: nat, e: nat, whole: bool, t: Bytes, d: nat)
    requires i <= |s| && PeekAt(s, i).Rune? && IsWhiteSpace(PeekAt(s, i).c)
    requires View(s, i, e, t, d) && BlankToken(s, i) == Lexed(Whitespace, e, whole)
    ensures PeekAt(t, i + d) == PeekAt(s, i) && BlankToken(t, i + d) == Lexed(Whitespace, e + d, whole)
  {
    hide View, SkipWhile, IsWhiteSpace;
    PeekView(s, i, e, t, d);
    SkipView(s, i, 0, BLANKS, e, t, d);
    ViewLater(s, i, e, t, d);
    PeekView(s, e, e, t, d);
  }

  lemma TokenKinds(s: Bytes, i: nat)
    requires i < |s|
    ensures At(s, i, '/' as int) && SlashToken(s, i).Lexed? ==> SlashToken(s, i).whole
    ensures At(s, i, '0' as int) && ZeroToken(s, i).Lexed? ==> ZeroToken(s, i).whole
    ensures PeekAt(s, i).Rune? && IsWhiteSpace(PeekAt(s, i).c) ==> BlankToken(s, i).id.Whitespace?
    ensures IsNewline('\r' as int)
  {
    hide Comment, SkipUntil, NumericBase, SkipWhile, DecodeAt, IsWhiteSpace;
  }

  /** A byte order mark is read at the start of the document only. */
  predicate MarkAt(s: Bytes, i: nat) { At(s, i, 0xFEFF) }

  /**
   * Main result: where the same runes stand, up to and with the one behind the token, the scanner reads the same token.
   */
  lemma TokenView(s: Bytes, i: nat, b: bool, id: TokenID, e: nat, whole: bool, t: Bytes, d: nat, checked: bool)
    requires i <= |s| && NextToken(s, i, b) == Lexed(id, e, whole) && View(s, i, e, t, d)
    requires MarkAt(s, i) ==> d == 0 && checked == b
    ensures NextToken(t, i + d, checked) == Lexed(id, e + d, whole)
  {
    hide View, IsWhiteSpace, IsNewline, IsDigit, BlankToken, SlashToken, HashToken, Punctuation, ZeroToken, DecimalNumber, Identifier,
      DecodeAt;
    PeekView(s, i, e, t, d);
    AtView(s, i, e, t, d, i, 0xFEFF);
    TokenKinds(s, i);
    var c := PeekAt(s, i).c;
    if c == 0xFEFF {
    } else if IsWhiteSpace(c) {
      BlankView(s, i, e, whole, t, d);
    } else if c == '\r' as int {
      AtView(s, i, e, t, d, i + 1, '\n' as int);
    } else if IsNewline(c) {
    } else if c == '/' as int {
      SlashView(s, i, id, e, t, d);
    } else if c == '#' as int {
      HashView(s, i, e, t, d);
    } else if Punctuation(c).Some? {
    } else if c == '+' as int || c == '-' as int {
      ViewLater(s, i, e, t, d);
      PeekView(s, i + 1, e, t, d);
      if PeekAt(s, i + 1).Rune? && IsDigit(PeekAt(s, i + 1).c) { DecimalView(s, i, e, t, d); } else { IdentifierView(s, i, e, t, d); }
    } else if c == '0' as int {
      ZeroView(s, i, id, e, t, d);
    } else if IsDigit(c) {
      DecimalView(s, i, e, t, d);
    } else {
      IdentifierView(s, i, e, t, d);
    }
  }
}
