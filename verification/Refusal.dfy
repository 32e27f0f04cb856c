// What becomes of trees that the formatting writer cannot spell: their text is refused, never read as something else.
module Refusal {
  import opened Basics
  import opened Tokens
  import opened Documents
  import opened Utf8
  import opened Generator
  import opened Spellings
  import opened Machine
  import opened Printing
  import Kdl
  import Lexer
  import Lossless
  import Multiline
  import RoundTrip
  import Strings
  import Values

  // ----- failing from a position on -----

  /** From position i of the source and configuration c on, the rest is not accepted. */
  ghost predicate Fails(e: Env, c: Config, t: Bytes, i: nat) {
    i <= |t| && forall b :: Kdl.Remaining(e, c, Lexer.ScanFrom(t, i, b)) == None
  }

  /** The tokens of pieces that stand at i. */
  function TokensAt(pieces: seq<Piece>, i: nat): (ts: seq<Token>)
    ensures RoundTrip.Matches(ts, pieces)
    decreases |pieces|
  {
    if pieces == [] then [] else [Token(pieces[0].id, pieces[0].data, i)] + TokensAt(pieces[1..], i + |pieces[0].data|)
  }

  lemma ThreeTokens(a: Piece, b: Piece, c: Piece, i: nat)
    ensures TokensAt([a, b, c], i)
      == [Token(a.id, a.data, i), Token(b.id, b.data, i + |a.data|), Token(c.id, c.data, i + |a.data| + |b.data|)]
  {
    assert [a, b, c][1..] == [b, c] && [b, c][1..] == [c] && [c][1..] == [];
    assert TokensAt([c], i + |a.data| + |b.data|) == [Token(c.id, c.data, i + |a.data| + |b.data|)];
  }

  lemma RemainingHead(e: Env, c: Config, t: Bytes, i: nat, b: bool, id: TokenID, end: nat)
    requires i <= |t| && Lexer.NextToken(t, i, b) == Lexer.Lexed(id, end, true)
    ensures i < end <= |t|
    ensures Kdl.Remaining(e, c, Lexer.ScanFrom(t, i, b)) ==
      match Step(e, c, Token(id, t[i..end], i)) {
        case None => None
        case Some(d) => Kdl.Remaining(e, d, Lexer.ScanFrom(t, end, true))
      }
  {
    hide Step, Lexer.NextToken, Lexer.ScanFrom;
    Kdl.RemainingStep(e, c, t, i, b);
    assert Lexer.NextToken(t, i, b).end == end;
  }

  /** If the pieces that stand here lead to d, and from d on the rest fails, it fails from here. */
  lemma {:induction false} ForwardFails(e: Env, c: Config, t: Bytes, i: nat, pieces: seq<Piece>, m: nat, d: Config)
    requires i <= |t| && Lexes(t, i, pieces, m) && Run(e, c, TokensAt(pieces, i)) == Some(d) && Fails(e, d, t, m)
    ensures Fails(e, c, t, i)
    decreases |pieces|
  {
    hide Step, Lexer.NextToken, Lexer.ScanFrom;
    if pieces != [] {
      var p := pieces[0];
      var tok := Token(p.id, p.data, i);
      var j := i + |p.data|;
      assert TokensAt(pieces, i)[1..] == TokensAt(pieces[1..], j);
      assert t[i..j] == p.data;
      var c1 := Step(e, c, tok).value;
      ForwardFails(e, c1, t, j, pieces[1..], m, d);
      forall b ensures Kdl.Remaining(e, c, Lexer.ScanFrom(t, i, b)) == None {
        RemainingHead(e, c, t, i, b, p.id, j);
      }
    }
  }

  /** The parser refuses this token, or accepts it and fails behind it. */
  ghost predicate Dooms(e: Env, c: Config, tok: Token, t: Bytes, end: nat) {
    var d := Step(e, c, tok);
    d.None? || Fails(e, d.value, t, end)
  }

  /** What fails at the next token: an unreadable one, or one that the parser refuses, now or later. */
  ghost predicate FailsWith(e: Env, c: Config, t: Bytes, i: nat, r: Lexer.Lexed) {
    || r.LexError?
    || (r.LexEof? && Step(e, c, EOF_TOKEN).None?)
    || (r.Lexed? && r.whole && i < r.end <= |t| && Dooms(e, c, Token(r.id, t[i..r.end], i), t, r.end))
  }

  lemma TokenFails(e: Env, c: Config, t: Bytes, i: nat)
    requires i <= |t| && forall b :: FailsWith(e, c, t, i, Lexer.NextToken(t, i, b))
    ensures Fails(e, c, t, i)
  {
    hide Step, Lexer.NextToken, Lexer.ScanFrom;
    forall b ensures Kdl.Remaining(e, c, Lexer.ScanFrom(t, i, b)) == None {
      var r := Lexer.NextToken(t, i, b);
      assert FailsWith(e, c, t, i, r);
      Lossless.ScanUnfolds(t, i, b);
      if r.LexEof? {
        Kdl.RunsToEof(e, c);
      } else if r.Lexed? {
        RemainingHead(e, c, t, i, b, r.id, r.end);
      }
    }
  }

  // ----- spaces -----

  /** A token that can start an entry or a block, or nothing that can be read. */
  predicate StartsEntry(r: Lexer.Lexed) {
    r.LexError? || r.LexEof? || (r.Lexed? && r.whole && (IsValue(r.id) || r.id.ParensOpen? || r.id.BraceOpen?))
  }

  ghost predicate EntryAt(t: Bytes, j: nat) {
    j < |t| && forall b :: StartsEntry(Lexer.NextToken(t, j, b))
  }

  lemma {:induction false} BlankRunAnyway(s: Bytes, k: nat, t: Bytes, j: nat, n: nat)
    requires k <= |s| && Multiline.BlankFrom(s, k) && Occurs(s, k, t, j)
    requires var end := j + (|s| - k); Lexer.PeekAt(t, end).Rune? ==> !IsWhiteSpace(Lexer.PeekAt(t, end).c)
    ensures Lexer.SkipWhile(t, j, n, Lexer.BLANKS) == j + (|s| - k)
    decreases |s| - k
  {
    hide DecodeAt;
    if k < |s| {
      OccursNext(s, k, t, j);
      BlankRunAnyway(s, k + DecodeAt(s, k).size, t, j + DecodeAt(s, k).size, n + 1);
    }
  }

  /** A whitespace piece, whatever stands behind it except more whitespace. */
  lemma BlankThen(e: Env, c: Config, d: Config, s: Bytes, t: Bytes, i: nat)
    requires s != [] && Multiline.BlankFrom(s, 0) && StandsAt(s, t, i)
    requires var end := i + |s|; Lexer.PeekAt(t, end).Rune? ==> !IsWhiteSpace(Lexer.PeekAt(t, end).c)
    requires Step(e, c, Token(Whitespace, s, i)) == Some(d)
    requires WordAt(t, i + |s|) ==> Fails(e, d, t, i + |s|)
    requires i + |s| < |t|
    ensures Fails(e, c, t, i)
  {
    hide Step, Lexer.ScanFrom, Lexer.NextToken, Multiline.BlankFrom, IsWhiteSpace, Run, Kdl.Remaining;
    var end := i + |s|;
    if WordAt(t, end) {
      hide Fails, Lexer.PeekAt;
      BlankScans(s, t, i);
      assert TokensAt([Piece(Whitespace, s)], i) == [Token(Whitespace, s, i)] by {
        assert [Piece(Whitespace, s)][1..] == [];
      }
      RunOne(e, c, Token(Whitespace, s, i));
      ForwardFails(e, c, t, i, [Piece(Whitespace, s)], end, d);
    } else {
      BlankThenUnreadable(s, t, i);
      forall b ensures Kdl.Remaining(e, c, Lexer.ScanFrom(t, i, b)) == None {
        UnreadableFails(e, c, t, i, end, b);
      }
    }
  }

  lemma UnreadableFails(e: Env, c: Config, t: Bytes, i: nat, end: nat, b: bool)
    requires i <= |t| && end <= |t| && Lexer.NextToken(t, i, b) == Lexer.Lexed(Whitespace, end, false)
    requires Lexer.NextToken(t, end, true) == Lexer.LexError
    ensures Kdl.Remaining(e, c, Lexer.ScanFrom(t, i, b)) == None
  {
    hide Lexer.ScanFrom, Lexer.NextToken;
    Lossless.ScanUnfolds(t, i, b);
    Lossless.ScanUnfolds(t, end, true);
  }

  lemma BlankThenUnreadable(s: Bytes, t: Bytes, i: nat)
    requires s != [] && Multiline.BlankFrom(s, 0) && StandsAt(s, t, i) && i + |s| < |t| && Lexer.PeekAt(t, i + |s|).Invalid?
    ensures forall b :: Lexer.NextToken(t, i, b) == Lexer.Lexed(Whitespace, i + |s|, false)
    ensures Lexer.NextToken(t, i + |s|, true) == Lexer.LexError
  {
    hide Lexer.NextToken, DecodeAt, IsWhiteSpace, Lexer.SkipWhile;
    assert s[0..] == s;
    BlankRunAnyway(s, 0, t, i, 0);
    BlankIsNoMark(DecodeAt(s, 0).c);
    OccursNext(s, 0, t, i);
    CutBlank(t, i, i + |s|);
  }

  lemma CutBlank(t: Bytes, i: nat, end: nat)
    requires i < |t| && Lexer.PeekAt(t, i).Rune? && IsWhiteSpace(Lexer.PeekAt(t, i).c) && Lexer.PeekAt(t, i).c != 0xFEFF
    requires Lexer.SkipWhile(t, i, 0, Lexer.BLANKS) == end && Lexer.PeekAt(t, end).Invalid?
    ensures forall b :: Lexer.NextToken(t, i, b) == Lexer.Lexed(Whitespace, end, false)
    ensures Lexer.NextToken(t, end, true) == Lexer.LexError
  {
    hide Lexer.SkipWhile, Lexer.SlashToken, Lexer.HashToken, Lexer.ZeroToken, Lexer.DecimalNumber, Lexer.Identifier, DecodeAt,
      IsWhiteSpace;
  }

  lemma EntryIsNoSpace(t: Bytes, j: nat)
    requires EntryAt(t, j)
    ensures Lexer.PeekAt(t, j).Rune? ==> !IsWhiteSpace(Lexer.PeekAt(t, j).c)
  {
    hide Lexer.SkipWhile, Lexer.SlashToken, Lexer.HashToken, Lexer.ZeroToken, Lexer.DecimalNumber, Lexer.Identifier;
    BlankIsNoMark(DecodeAt(t, j).c);
    assert StartsEntry(Lexer.NextToken(t, j, true));
  }

  // ----- pieces that cannot be read back -----

  /** At a quote stands a string or nothing readable. */
  lemma QuoteStartsEntry(t: Bytes, j: nat)
    requires j < |t| && t[j] == Strings.QUOTE
    ensures forall b :: Lexer.NextToken(t, j, b) == Lexer.Lift(Lexer.QuotedText(t, j))
    ensures EntryAt(t, j)
  {
    hide Lexer.QuotedText, IsWhiteSpace, IsNewline, IsDigit, Lexer.Punctuation, IsPunctuation;
    AsciiDecodes(t, j);
    QuoteIsOrdinary();
  }

  /** Unless it is scannable, a quoted form is not read at all. */
  lemma UnscannableIsUnread(s: Bytes, t: Bytes, i: nat)
    requires !ScannableFrom(s, 0) && StandsAt(Strings.Quoted(s), t, i)
    ensures forall b :: Lexer.NextToken(t, i, b).LexError?
  {
    hide Lexer.QuotedEnd, Lexer.MultiQuotedEnd, Strings.EscapeFrom, DecodeAt, ScannableFrom;
    var q := Strings.Quoted(s);
    var e := Strings.EscapeFrom(s, 0) + [Strings.QUOTE];
    assert q[1..|q|] == e;
    if s == [] { ScannableEmpty(); }
    StandsPart(q, t, i, 0, 1);
    StandsPart(q, t, i, 1, |q|);
    assert t[i + 0] == q[0];
    QuoteStartsEntry(t, i);
    EscapedIsNoQuote(s);
    FirstByte(e, t, i + 1);
    QuoteIsAt(t, i + 1);
    EscapedScans(s, 0, t, i + 1);
  }

  /** A scannable quoted form in front of anything but a quote is one token, whether or not it can be unquoted. */
  lemma ScannableLexes(s: Bytes, t: Bytes, i: nat)
    requires ScannableFrom(s, 0) && StandsAt(Strings.Quoted(s), t, i)
    requires i + |Strings.Quoted(s)| < |t| && t[i + |Strings.Quoted(s)|] != Strings.QUOTE
    ensures forall b :: Lexer.NextToken(t, i, b) == Lexer.Lexed(QuotedString, i + |Strings.Quoted(s)|, true)
  {
    hide Lexer.QuotedText, ScannableFrom, Strings.EscapeFrom;
    var q := Strings.Quoted(s);
    FirstByte(q, t, i);
    QuoteStartsEntry(t, i);
    QuotedFormScans(s, t, i);
    if s == [] { EscapedNothing(); }
  }

  /** A quoted form that is not quotable has no meaning. */
  lemma UnquotableMeansNothing(s: Bytes, k: nat)
    ensures Values.Meaning(Token(QuotedString, Strings.Quoted(s), k)) == if Strings.QuotableFrom(s, 0) then Some(Text(s)) else None
  {
    hide Strings.Unquoted, Strings.Quoted, Strings.QuotableFrom;
    Strings.QuoteRoundTrip(s);
  }

  /** The characters of a decimal number. */
  predicate IsNumeric(c: Byte) {
    IsDigit(c) || c == '_' as int || c == '+' as int || c == '-' as int || c == '.' as int || c == 'e' as int || c == 'E' as int
  }

  lemma SignedIsNumeric(t: Bytes, i: nat, j: nat)
    requires i <= |t| && Lexer.SignedInteger(t, i) == Some(j)
    ensures i < j <= |t| && forall k :: i <= k < j ==> IsNumeric(t[k])
  {
    Lossless.AsciiAt(t, i, '+' as int);
    Lossless.AsciiAt(t, i, '-' as int);
    var a := if i < |t| && (t[i] == '+' as int || t[i] == '-' as int) then i + 1 else i;
    Lossless.IntegerIsDigits(t, a, j);
  }

  lemma NumberIsNumeric(t: Bytes, i: nat)
    requires i < |t|
    ensures var r := Lexer.DecimalNumber(t, i); r.Lexed? ==>
      i < r.end <= |t| && (forall k :: i <= k < r.end ==> IsNumeric(t[k]))
      && (Lexer.PeekAt(t, r.end).Rune? ==> IsSeparator(Lexer.PeekAt(t, r.end).c))
    ensures Lexer.DecimalNumber(t, i).LexEof? ==> forall k :: i <= k < |t| ==> IsNumeric(t[k])
  {
    hide Lexer.Integer, IsSeparator, Lexer.SignedInteger;
    if Lexer.SignedInteger(t, i).Some? {
      var j := Lexer.SignedInteger(t, i).value;
      SignedIsNumeric(t, i, j);
      Lossless.AsciiAt(t, j, '.' as int);
      if Lexer.Fraction(t, j).Some? {
        var k := Lexer.Fraction(t, j).value;
        if Lexer.At(t, j, '.' as int) { Lossless.IntegerIsDigits(t, j + 1, k); }
        Lossless.AsciiAt(t, k, 'e' as int);
        Lossless.AsciiAt(t, k, 'E' as int);
        if Lexer.AtExponent(t, k) && k + 1 < |t| && Lexer.SignedInteger(t, k + 1).Some? {
          SignedIsNumeric(t, k + 1, Lexer.SignedInteger(t, k + 1).value);
        }
      }
    }
  }

  /** A bare name starts a word, a number, or nothing readable. */
  lemma BareStartsEntry(s: Bytes, t: Bytes, i: nat)
    requires IsBareName(s) && StandsAt(s, t, i) && StopsBare(t, i + |s|)
    ensures EntryAt(t, i)
    ensures forall b :: var r := Lexer.NextToken(t, i, b);
      r == Lexer.Lift(Lexer.Identifier(t, i)) || r == Lexer.DecimalNumber(t, i) || r == Lexer.LexError
  {
    hide Lexer.Identifier, Lexer.DecimalNumber, Lexer.BlankToken, Lexer.SlashToken, Lexer.HashToken, Lexer.ZeroToken,
      IsBareStart, IsWhiteSpace, IsNewline, IsDigit, IsBareChar, RunesFrom, BareFrom;
    FirstRune(s, t, i);
    BareStartIsOrdinary(DecodeAt(s, 0).c);
    ZeroIsDigit();
  }

  /** A bare name that does not read back is a number, cut short or not, or nothing readable. */
  lemma BadBareIsNumberOrNothing(s: Bytes, t: Bytes, i: nat)
    requires IsBareName(s) && !NameReadsBack(s) && StandsAt(s, t, i) && StopsBare(t, i + |s|) && i + |s| < |t|
    requires t[i + |s|] != Strings.QUOTE && t[i + |s|] != '#' as int
    ensures forall b :: var r := Lexer.NextToken(t, i, b); r == Lexer.LexError || r == Lexer.DecimalNumber(t, i)
  {
    BareStartsEntry(s, t, i);
    BareWordScans(s, t, i);
    IdentifierNeedsWord(s, t, i);
    hide Lexer.NextToken, Lexer.DecimalNumber, Lexer.Identifier;
  }

  lemma IdentifierNeedsWord(s: Bytes, t: Bytes, i: nat)
    requires IsBareName(s) && StandsAt(s, t, i) && StopsBare(t, i + |s|) && Lexer.BareWord(t, i).None?
    ensures i < |t| && Lexer.Identifier(t, i).None?
  {
    hide Lexer.BareWord, IsBareStart, IsPunctuation, Lexer.QuotedText, IsDigit, RunesFrom, BareFrom;
    FirstRune(s, t, i);
    BareStartIsOrdinary(DecodeAt(s, 0).c);
  }

  /** In front of an equals sign such a name is not readable as a key: a number must not run into it. */
  lemma BadBareKey(s: Bytes, t: Bytes, i: nat)
    requires IsBareName(s) && !NameReadsBack(s) && StandsAt(s, t, i) && i + |s| < |t| && t[i + |s|] == EQ
    ensures forall b :: var r := Lexer.NextToken(t, i, b);
      r.LexError? || (r.Lexed? && r.id.Decimal? && r.whole && i < r.end <= |t| && Lexer.PeekAt(t, r.end).Invalid?)
  {
    BadBareIsNumberOrNothing(s, t, i);
    NumberIsNumeric(t, i);
    assert t[i + |s|] == EQ;
    var r := Lexer.DecimalNumber(t, i);
    if r.Lexed? {
      assert r.end <= i + |s|;
      NothingSeparates(s, r.end - i, t, i);
    }
    hide Lexer.NextToken, Lexer.DecimalNumber;
  }

  /** Behind the first k bytes, all ASCII, of a bare name in front of '=', no separator can be read. */
  lemma NothingSeparates(s: Bytes, k: nat, t: Bytes, i: nat)
    requires IsBareName(s) && StandsAt(s, t, i) && i + |s| < |t| && t[i + |s|] == EQ
    requires 0 < k <= |s| && forall m :: i <= m < i + k ==> t[m] < 0x80
    ensures Lexer.PeekAt(t, i + k).Rune? ==> !IsSeparator(Lexer.PeekAt(t, i + k).c)
  {
    hide DecodeAt, IsBareStart, IsDigit;
    if k == |s| {
      AsciiDecodes(t, i + k);
    } else {
      StandsPart(s, t, i, 0, |s|);
      forall m | 0 <= m < k ensures s[m] < 0x80 { assert t[i + m] == s[m]; }
      BareNameFrom(s);
      BareAlong(s, 0, k);
      StandsPart(s, t, i, k, |s|);
      assert Occurs(s, k, t, i + k);
      if Malformed(s, k) { MalformedBare(s, k, t, i + k); } else { OccursNext(s, k, t, i + k); }
    }
  }

  lemma {:induction false} BareAlong(s: Bytes, i: nat, k: nat)
    requires i <= k <= |s| && BareFrom(s, i) && forall m :: i <= m < k ==> s[m] < 0x80
    ensures BareFrom(s, k)
    decreases k - i
  {
    hide IsBareChar;
    if i < k {
      AsciiDecodes(s, i);
      BareAlong(s, i + 1, k);
    }
  }

  // ----- what stands behind an entry -----

  /** Behind an entry stands the line feed of the node, or a space in front of another entry or the block. */
  ghost predicate Follows(t: Bytes, j: nat) {
    j < |t| && (t[j] == NL || (t[j] == SP && EntryAt(t, j + 1)))
  }

  lemma SpaceThen(e: Env, c: Config, d: Config, t: Bytes, i: nat)
    requires i < |t| && t[i] == SP && EntryAt(t, i + 1)
    requires Step(e, c, Token(Whitespace, SPACE.data, i)) == Some(d) && Fails(e, d, t, i + 1)
    ensures Fails(e, c, t, i)
  {
    hide Step, Lexer.ScanFrom, Lexer.NextToken, Multiline.BlankFrom;
    assert t[i..i + 1] == SPACE.data;
    SpaceIsBlank();
    EntryIsNoSpace(t, i + 1);
    BlankThen(e, c, d, SPACE.data, t, i);
  }
}
