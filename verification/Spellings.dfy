// What the scanner makes of the two spellings the writer uses for text: quoted strings and bare identifiers.
module Spellings {
  import opened Basics
  import opened Tokens
  import opened Utf8
  import opened Strings
  import Lexer

  // ----- quoted strings -----

  /** No U+FFFD, which the scanner refuses, and none of the newlines that quoting leaves as they are. */
  predicate ScannableFrom(s: Bytes, i: nat)
    requires i <= |s|
    decreases |s| - i
  {
    i == |s| || (ScannableAt(s, i) && ScannableFrom(s, Next(s, i)))
  }

  predicate ScannableAt(s: Bytes, i: nat)
    requires i < |s|
  {
    s[i] < 0x80 || Malformed(s, i) || (DecodeAt(s, i).c != RUNE_ERROR && !IsNewline(DecodeAt(s, i).c))
  }

  lemma {:induction false} PlainRun(t: Bytes, j: nat, k: nat)
    requires j <= k <= |t| && forall m :: j <= m < k ==> IsPlain(t[m])
    ensures Lexer.QuotedEnd(t, j, false) == Lexer.QuotedEnd(t, k, false)
    decreases k - j
  {
    if j < k {
      AsciiDecodes(t, j);
      PlainRun(t, j + 1, k);
    }
  }

  /** A backslash, a letter or mark, and plain characters. */
  lemma EscapeRun(t: Bytes, j: nat, k: nat)
    requires j + 2 <= k <= |t| && t[j] == BACKSLASH && 0x21 <= t[j + 1] < 0x7F && forall m :: j + 2 <= m < k ==> IsPlain(t[m])
    ensures Lexer.QuotedEnd(t, j, false) == Lexer.QuotedEnd(t, k, false)
  {
    AsciiDecodes(t, j);
    AsciiDecodes(t, j + 1);
    assert Lexer.QuotedEnd(t, j, false) == Lexer.QuotedEnd(t, j + 1, true) == Lexer.QuotedEnd(t, j + 2, false);
    PlainRun(t, j + 2, k);
  }

  lemma EscapeShape(c: Byte)
    requires c < 0x80 && !IsPlain(c)
    ensures var p := Escape(c); |p| >= 2 && p[0] == BACKSLASH && 0x21 <= p[1] < 0x7F && forall m :: 2 <= m < |p| ==> IsPlain(p[m])
  {}

  lemma PieceScans(s: Bytes, i: nat, t: Bytes, j: nat)
    requires i < |s| && StandsAt(Piece(s, i), t, j)
    ensures Lexer.QuotedEnd(t, j, false) == if ScannableAt(s, i) then Lexer.QuotedEnd(t, j + |Piece(s, i)|, false) else None
  {
    hide DecodeAt;
    var p := Piece(s, i);
    StandsPart(p, t, j, 0, |p|);
    if IsPlain(s[i]) {
      assert t[j + 0] == p[0];
      PlainRun(t, j, j + 1);
    } else if s[i] < 0x80 || Malformed(s, i) {
      if s[i] < 0x80 { EscapeShape(s[i]); }
      assert t[j + 0] == p[0] && t[j + 1] == p[1];
      forall m | j + 2 <= m < j + |p| ensures IsPlain(t[m]) {
        assert t[j + (m - j)] == p[m - j];
      }
      EscapeRun(t, j, j + |p|);
    } else {
      HighRune(s, i, t, j);
    }
  }

  lemma HighRune(s: Bytes, i: nat, t: Bytes, j: nat)
    requires i < |s| && s[i] >= 0x80 && !Malformed(s, i) && StandsAt(s[i..i + DecodeAt(s, i).size], t, j)
    ensures Lexer.QuotedEnd(t, j, false) == if ScannableAt(s, i) then Lexer.QuotedEnd(t, j + DecodeAt(s, i).size, false) else None
  {
    DecodeLocal(s, i, t, j);
    HighBytes(s, i);
  }

  /** From inside the literal, the scanner reads to its end exactly when the rest is scannable. */
  lemma {:induction false} EscapedScans(s: Bytes, i: nat, t: Bytes, j: nat)
    requires i <= |s| && StandsAt(EscapeFrom(s, i) + [QUOTE], t, j)
    ensures Lexer.QuotedEnd(t, j, false) == if ScannableFrom(s, i) then Some(j + |EscapeFrom(s, i)| + 1) else None
    decreases |s| - i
  {
    hide Lexer.QuotedEnd, DecodeAt, ScannableAt, EscapeFrom, Piece;
    var e := EscapeFrom(s, i) + [QUOTE];
    if i == |s| {
      EscapedEnd(s);
      StandsPart(e, t, j, 0, 1);
      assert t[j + 0] == e[0];
      QuoteEnds(t, j);
    } else {
      var p, k := Piece(s, i), Next(s, i);
      EscapeUnfolds(s, i);
      Assoc(p, EscapeFrom(s, k), [QUOTE]);
      assert e[0..|p|] == p && e[|p|..|e|] == EscapeFrom(s, k) + [QUOTE];
      StandsPart(e, t, j, 0, |p|);
      StandsPart(e, t, j, |p|, |e|);
      PieceScans(s, i, t, j);
      EscapedScans(s, k, t, j + |p|);
    }
  }

  lemma EscapedEnd(s: Bytes)
    ensures EscapeFrom(s, |s|) == []
  {}

  lemma EscapeUnfolds(s: Bytes, i: nat)
    requires i < |s|
    ensures EscapeFrom(s, i) == Piece(s, i) + EscapeFrom(s, Next(s, i))
  {
    AsciiDecodes(s, i);
  }

  lemma QuoteEnds(t: Bytes, j: nat)
    requires j < |t| && t[j] == QUOTE
    ensures Lexer.QuotedEnd(t, j, false) == Some(j + 1)
  {
    AsciiDecodes(t, j);
  }

  lemma QuoteIsAt(t: Bytes, j: nat)
    ensures Lexer.At(t, j, QUOTE) <==> j < |t| && t[j] == QUOTE
  {
    if j < |t| { AsciiDecodes(t, j); }
  }

  lemma EscapedIsNoQuote(s: Bytes)
    requires s != []
    ensures EscapeFrom(s, 0) != [] && EscapeFrom(s, 0)[0] != QUOTE
  {
    EscapeUnfolds(s, 0);
    AsciiDecodes(s, 0);
    if s[0] >= 0x80 { HighBytes(s, 0); }
  }

  /** The quoted form of s is scanned whole exactly when s is scannable; the empty form must not run into a third quote. */
  lemma QuotedFormScans(s: Bytes, t: Bytes, i: nat)
    requires StandsAt(Quoted(s), t, i)
    ensures Lexer.QuotedText(t, i) == Some((QuotedString, i + |Quoted(s)|))
      <==> ScannableFrom(s, 0) && (s == [] && i + 2 < |t| ==> t[i + 2] != QUOTE)
  {
    hide Lexer.QuotedEnd, Lexer.MultiQuotedEnd, EscapeFrom, DecodeAt, ScannableFrom;
    var q := Quoted(s);
    var e := EscapeFrom(s, 0) + [QUOTE];
    assert q[1..] == e;
    StandsPart(q, t, i, 0, 1);
    StandsPart(q, t, i, 1, |q|);
    QuoteIsAt(t, i + 1);
    QuoteIsAt(t, i + 2);
    StandsPart(e, t, i + 1, 0, |e|);
    assert t[i + 1 + 0] == e[0];
    if s != [] {
      EscapedIsNoQuote(s);
    } else {
      assert EscapeFrom(s, 0) == [] by { EscapedNothing(); }
      assert t[i + 1] == QUOTE;
    }
    EscapedScans(s, 0, t, i + 1);
    assert ScannableNothing: s == [] ==> ScannableFrom(s, 0) by { ScannableEmpty(); }
  }

  lemma EscapedNothing() ensures EscapeFrom([], 0) == [] {}
  lemma ScannableEmpty() ensures ScannableFrom([], 0) {}

  /**
   * The quoted form of s, wherever it stands in a source (and unless a third quote follows an empty one), is scanned
   * whole as one quoted string and unquotes to s, exactly when s is quotable and scannable.
   */
  lemma QuotedStringRoundTrip(s: Bytes, t: Bytes, i: nat)
    requires StandsAt(Quoted(s), t, i) && (s == [] && i + 2 < |t| ==> t[i + 2] != QUOTE)
    ensures (Lexer.QuotedText(t, i) == Some((QuotedString, i + |Quoted(s)|)) && Unquoted(Quoted(s)) == Some(s))
      <==> QuotableFrom(s, 0) && ScannableFrom(s, 0)
  {
    hide Lexer.QuotedText, Quoted, QuotableFrom, ScannableFrom, Unquoted;
    QuotedFormScans(s, t, i);
    QuoteRoundTrip(s);
  }

  // ----- bare identifiers -----

  predicate BareFrom(s: Bytes, i: nat)
    requires i <= |s|
    decreases |s| - i
  {
    i == |s| || (IsBareChar(DecodeAt(s, i).c) && BareFrom(s, i + DecodeAt(s, i).size))
  }

  /** IsBareIdentifier, the writer's test: it sees a malformed byte as U+FFFD, and knows no reserved words. */
  predicate IsBareName(s: Bytes) {
    s != [] && IsBareStart(DecodeAt(s, 0).c) && BareFrom(s, DecodeAt(s, 0).size)
  }

  method IsBareIdentifier(s: Bytes) returns (bare: bool)
    ensures bare == IsBareName(s)
  {
    if |s| == 0 { return false; }
    var first := true;
    var i := 0;
    while i < |s|
      invariant i <= |s| && (first <==> i == 0)
      invariant !first ==> IsBareName(s) == BareFrom(s, i)
    {
      var d := DecodeAt(s, i);
      if first {
        if !IsBareStart(d.c) { return false; }
        first := false;
      } else if !IsBareChar(d.c) {
        return false;
      }
      i := i + d.size;
    }
    return true;
  }

  predicate RunesFrom(s: Bytes, i: nat)
    requires i <= |s|
    decreases |s| - i
  {
    i == |s| || (Lexer.PeekAt(s, i).Rune? && RunesFrom(s, Next(s, i)))
  }

  /** The source goes on with nothing, or with an ASCII character that no bare identifier has. */
  predicate StopsBare(t: Bytes, e: nat) {
    e >= |t| || (t[e] < 0x80 && !IsBareChar(t[e]))
  }

  /** A sign or a dot in front of a digit. */
  predicate LooksNumeric(s: Bytes) {
    |s| > 1 && (s[0] == '+' as int || s[0] == '-' as int || s[0] == '.' as int) && IsDigit(s[1])
  }

  /** The scanner's loop reads the rest of the name, or stops at a rune that it cannot read. */
  lemma {:induction false} BareRun(s: Bytes, i: nat, t: Bytes, j: nat, n: nat)
    requires i <= |s| && BareFrom(s, i) && Occurs(s, i, t, j) && StopsBare(t, j + (|s| - i))
    ensures var k := Lexer.SkipWhile(t, j, n, Lexer.BARE_CHARS);
      if RunesFrom(s, i) then k == j + (|s| - i) else Lexer.PeekAt(t, k).Invalid?
    decreases |s| - i
  {
    hide DecodeAt, IsBareChar;
    if i == |s| {
      if j < |t| { AsciiDecodes(t, j); }
    } else if Malformed(s, i) {
      MalformedBare(s, i, t, j);
    } else {
      OccursNext(s, i, t, j);
      BareRun(s, Next(s, i), t, j + DecodeAt(s, i).size, n + 1);
    }
  }

  lemma MalformedBare(s: Bytes, i: nat, t: Bytes, j: nat)
    requires Occurs(s, i, t, j) && i < |s| && Malformed(s, i) && StopsBare(t, j + (|s| - i))
    ensures Lexer.PeekAt(t, j).Invalid?
  {
    MalformedStays(s, i, t, j);
  }

  /** The scanner reads a bare identifier as one exactly when it has no word that is reserved and no unreadable rune. */
  lemma BareWordScans(s: Bytes, t: Bytes, i: nat)
    requires IsBareName(s) && StandsAt(s, t, i) && StopsBare(t, i + |s|)
    ensures Lexer.BareWord(t, i) == if RunesFrom(s, 0) && !Lexer.Reserved(s) && !LooksNumeric(s) then Some(i + |s|) else None
  {
    hide Lexer.SkipWhile, IsBareChar, DecodeAt, Lexer.Reserved, RunesFrom, BareFrom;
    assert s[0..] == s;
    BareNameFrom(s);
    BareRun(s, 0, t, i, 0);
    FirstRune(s, t, i);
    if i + |s| < |t| { AsciiDecodes(t, i + |s|); }
    if RunesFrom(s, 0) {
      SecondRune(s, t, i);
      assert t[i..i + |s|] == s;
    }
  }

  lemma BareNameFrom(s: Bytes)
    requires IsBareName(s)
    ensures BareFrom(s, 0)
  {}

  /** The first rune of the name is the one at the cursor, if it can be read. */
  lemma FirstRune(s: Bytes, t: Bytes, i: nat)
    requires IsBareName(s) && StandsAt(s, t, i) && StopsBare(t, i + |s|)
    ensures i < |t|
    ensures RunesFrom(s, 0) ==> Lexer.PeekAt(t, i) == Lexer.Rune(DecodeAt(s, 0).c, DecodeAt(s, 0).size)
    ensures !RunesFrom(s, 0) && Lexer.PeekAt(t, i).Rune? ==> Lexer.PeekAt(t, i) == Lexer.Rune(DecodeAt(s, 0).c, DecodeAt(s, 0).size)
  {
    assert s[0..] == s;
    if Malformed(s, 0) {
      MalformedBare(s, 0, t, i);
    } else {
      OccursNext(s, 0, t, i);
    }
  }

  /** A digit behind the first character of a name that starts with a sign or a dot. */
  lemma SecondRune(s: Bytes, t: Bytes, i: nat)
    requires IsBareName(s) && StandsAt(s, t, i) && StopsBare(t, i + |s|)
    requires RunesFrom(s, 0)
    ensures var c := DecodeAt(s, 0).c; c == '+' as int || c == '-' as int || c == '.' as int ==>
      && i + 1 <= |t|
      && DecodeAt(s, 0).size == 1
      && (LooksNumeric(s) <==> Lexer.PeekAt(t, i + 1).Rune? && IsDigit(Lexer.PeekAt(t, i + 1).c))
    ensures var c := DecodeAt(s, 0).c; LooksNumeric(s) ==> c == '+' as int || c == '-' as int || c == '.' as int
  {
    AsciiDecodes(s, 0);
    if i + 1 < |t| { AsciiDecodes(t, i + 1); }
    if |s| > 1 {
      assert t[i..i + |s|][1] == s[1];
    }
  }

  /** The wide range of characters that start a bare identifier holds none of those that the scanner tells tokens by. */
  lemma BareStartIsOrdinary(c: Rune)
    requires IsBareStart(c)
    ensures c > 0x20 && c <= 0x10FFFF && !IsWhiteSpace(c) && !IsNewline(c) && !IsDigit(c) && !IsPunctuation(c) && c != 0xFEFF
    ensures c != '/' as int && c != '#' as int && c != '"' as int && c != '\r' as int && Lexer.Punctuation(c).None?
  {}

  /**
   * A name that the writer prints bare, standing in front of a character that ends it, is read back as one bare
   * identifier exactly when all its runes can be read, it is not reserved, and it does not look like a number.
   * (A lone r must also not stand in front of a quote or a hash.)
   */
  lemma BareNameRoundTrip(s: Bytes, t: Bytes, i: nat, bomChecked: bool)
    requires IsBareName(s) && StandsAt(s, t, i) && StopsBare(t, i + |s|)
    requires i + |s| < |t| ==> t[i + |s|] != QUOTE && t[i + |s|] != '#' as int
    ensures Lexer.NextToken(t, i, bomChecked) == Lexer.Lexed(BareIdentifier, i + |s|, true)
      <==> RunesFrom(s, 0) && !Lexer.Reserved(s) && !LooksNumeric(s)
  {
    hide Lexer.BareWord, Lexer.PeekAt, DecodeAt, IsBareStart, IsWhiteSpace, IsNewline, IsDigit, IsPunctuation, LooksNumeric,
      Lexer.Reserved, RunesFrom, Lexer.SlashToken, Lexer.HashToken, Lexer.ZeroToken, Lexer.DecimalNumber, Lexer.BlankToken,
      BareFrom, Lexer.QuotedText;
    FirstRune(s, t, i);
    BareStartIsOrdinary(DecodeAt(s, 0).c);
    BareWordScans(s, t, i);
    assert t[i..i + |s|] == s;
    if i + |s| <= |t| {
      QuoteIsAt(t, i + |s|);
      HashIsAt(t, i + |s|);
    }
    if RunesFrom(s, 0) { SecondRune(s, t, i); }
    ZeroIsDigit();
  }

  lemma HashIsAt(t: Bytes, j: nat)
    ensures Lexer.At(t, j, '#' as int) <==> j < |t| && t[j] == '#' as int
  {
    if j < |t| { AsciiDecodes(t, j); }
  }

  lemma ZeroIsDigit() ensures IsDigit('0' as int) {}
}
