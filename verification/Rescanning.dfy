// Scanning a text that holds parts of another one.
module Rescanning {
  import opened Basics
  import opened Tokens
  import opened Utf8
  import opened Lexer
  import opened Generator
  import opened Locality
  import Lossless
  import Printing
  import RoundTrip

  // ----- token by token -----

  /** From i to e the scanner reads exactly these tokens. */
  ghost predicate Reads(t: Bytes, i: nat, b: bool, tokens: seq<Token>, e: nat)
    decreases |tokens|
  {
    if tokens == [] then i == e <= |t|
    else
      var x := tokens[0];
      && x.data != [] && x.offset == i && i + |x.data| <= |t| && x.data == t[i..i + |x.data|]
      && NextToken(t, i, b) == Lexed(x.id, i + |x.data|, true)
      && Reads(t, i + |x.data|, true, tokens[1..], e)
  }

  lemma {:induction false} ReadsWithin(t: Bytes, i: nat, b: bool, tokens: seq<Token>, e: nat)
    requires Reads(t, i, b, tokens, e)
    ensures i <= e <= |t| && (i == e <==> tokens == [])
    decreases |tokens|
  {
    hide NextToken;
    if tokens != [] { ReadsWithin(t, i + |tokens[0].data|, true, tokens[1..], e); }
  }

  lemma {:induction false} ReadsAppend(t: Bytes, i: nat, b: bool, x: seq<Token>, m: nat, y: seq<Token>, e: nat)
    requires Reads(t, i, b, x, m) && Reads(t, m, b || x != [], y, e)
    ensures Reads(t, i, b, x + y, e)
    decreases |x|
  {
    hide NextToken;
    if x == [] {
      assert x + y == y;
    } else {
      assert (x + y)[1..] == x[1..] + y;
      ReadsAppend(t, i + |x[0].data|, true, x[1..], m, y, e);
    }
  }

  lemma {:induction false} ReadsSplit(t: Bytes, i: nat, b: bool, tokens: seq<Token>, e: nat, k: nat) returns (m: nat)
    requires Reads(t, i, b, tokens, e) && k <= |tokens|
    ensures Reads(t, i, b, tokens[..k], m) && Reads(t, m, b || k > 0, tokens[k..], e)
    decreases k
  {
    hide NextToken;
    if k == 0 {
      ReadsWithin(t, i, b, tokens, e);
      m := i;
    } else {
      m := ReadsSplit(t, i + |tokens[0].data|, true, tokens[1..], e, k - 1);
      assert tokens[..k][1..] == tokens[1..][..k - 1] && tokens[1..][k - 1..] == tokens[k..];
    }
  }

  lemma ReadsOne(t: Bytes, i: nat, b: bool, x: Token)
    requires x.data != [] && x.offset == i && i + |x.data| <= |t| && x.data == t[i..i + |x.data|]
    requires NextToken(t, i, b) == Lexed(x.id, i + |x.data|, true)
    ensures Reads(t, i, b, [x], i + |x.data|)
  {
    hide NextToken;
    assert [x][1..] == [];
  }

  /** A scan reads its tokens and stops where the input ends for it. */
  lemma {:induction false} ScanReads(t: Bytes, i: nat, b: bool)
    requires i <= |t| && ScanFrom(t, i, b).Scanned?
    ensures var r := ScanFrom(t, i, b); Reads(t, i, b, r.tokens, r.stop) && r.stop <= |t| && NextToken(t, r.stop, b || r.tokens != []).LexEof?
    decreases |t| - i
  {
    hide NextToken, Reads;
    Lossless.UnlessWholeNothingFollows(t, i, b);
    Lossless.ScanUnfolds(t, i, b);
    var r := NextToken(t, i, b);
    if r.Lexed? {
      Lossless.ScanUnfolds(t, r.end, true);
      ScanReads(t, r.end, true);
      var rest := ScanFrom(t, r.end, true);
      var x := Token(r.id, t[i..r.end], i);
      ReadsOne(t, i, b, x);
      ReadsAppend(t, i, b, [x], r.end, rest.tokens, rest.stop);
    } else {
      NothingRead(t, i, b);
    }
  }

  lemma NothingRead(t: Bytes, i: nat, b: bool)
    requires i <= |t|
    ensures Reads(t, i, b, [], i)
  {}

  /** And the other way round. */
  lemma {:induction false} ReadsScan(t: Bytes, i: nat, b: bool, tokens: seq<Token>, e: nat)
    requires Reads(t, i, b, tokens, e) && i <= e <= |t|
    ensures NextToken(t, e, b || tokens != []).LexEof? ==> ScanFrom(t, i, b) == Scanned(tokens, e)
    ensures NextToken(t, e, b || tokens != []).LexError? ==> ScanFrom(t, i, b) == Failed
    decreases |tokens|
  {
    hide NextToken;
    if tokens != [] {
      var x := tokens[0];
      ReadsWithin(t, i + |x.data|, true, tokens[1..], e);
      ReadsScan(t, i + |x.data|, true, tokens[1..], e);
      assert [x] + tokens[1..] == tokens;
    }
  }

  /** What is read up to the end of the input begins with whatever is read. */
  lemma {:induction false} ReadsDetermined(t: Bytes, i: nat, b: bool, x: seq<Token>, e: nat, us: seq<Token>, f: nat)
    requires Reads(t, i, b, x, e) && Reads(t, i, b, us, f) && f <= |t| && NextToken(t, f, b || us != []).LexEof?
    ensures |x| <= |us| && us[..|x|] == x && Reads(t, e, b || x != [], us[|x|..], f)
    decreases |x|
  {
    hide NextToken;
    if x == [] {
      assert us[0..] == us;
    } else {
      assert us != [] && us[0] == x[0];
      ReadsDetermined(t, i + |x[0].data|, true, x[1..], e, us[1..], f);
      assert us[..|x|] == [us[0]] + us[1..][..|x| - 1] && x == [x[0]] + x[1..];
      assert us[1..][|x| - 1..] == us[|x|..];
    }
  }

  /** Pieces that the scanner reads as they were meant are read as tokens that match them. */
  lemma {:induction false} PiecesRead(t: Bytes, i: nat, pieces: seq<Piece>, e: nat, b: bool) returns (tokens: seq<Token>)
    requires Printing.Lexes(t, i, pieces, e) && e <= |t|
    ensures Reads(t, i, b, tokens, e) && RoundTrip.Matches(tokens, pieces)
    decreases |pieces|
  {
    hide NextToken;
    if pieces == [] {
      tokens := [];
    } else {
      var p := pieces[0];
      LexesForward(t, i, pieces, e);
      var rest := PiecesRead(t, i + |p.data|, pieces[1..], e, true);
      assert NextToken(t, i, b) == Lexed(p.id, i + |p.data|, true);
      tokens := [Token(p.id, p.data, i)] + rest;
    }
  }

  lemma {:induction false} LexesForward(t: Bytes, i: nat, pieces: seq<Piece>, e: nat)
    requires Printing.Lexes(t, i, pieces, e)
    ensures i <= e
    decreases |pieces|
  {
    hide NextToken;
    if pieces != [] { LexesForward(t, i + |pieces[0].data|, pieces[1..], e); }
  }

  // ----- elsewhere -----

  function Moved(tokens: seq<Token>, d: nat): seq<Token> {
    if tokens == [] then [] else [tokens[0].(offset := tokens[0].offset + d)] + Moved(tokens[1..], d)
  }

  lemma {:induction false} MovedNowhere(tokens: seq<Token>)
    ensures Moved(tokens, 0) == tokens
  {
    if tokens != [] { MovedNowhere(tokens[1..]); }
  }

  lemma {:induction false} MovedAt(tokens: seq<Token>, d: nat)
    ensures |Moved(tokens, d)| == |tokens|
    ensures forall k :: 0 <= k < |tokens| ==> Moved(tokens, d)[k] == tokens[k].(offset := tokens[k].offset + d)
  {
    if tokens != [] { MovedAt(tokens[1..], d); }
  }

  /** Where a text looks the same, the same tokens are read. */
  lemma {:induction false} ReadsView(s: Bytes, i: nat, b: bool, tokens: seq<Token>, e: nat, t: Bytes, d: nat, checked: bool)
    requires i <= e && Reads(s, i, b, tokens, e) && View(s, i, e, t, d) && (MarkAt(s, i) && !b ==> d == 0 && !checked)
    ensures Reads(t, i + d, checked, Moved(tokens, d), e + d)
    decreases |tokens|
  {
    hide NextToken, View, MarkAt, Reads;
    if tokens == [] {
      NoTokensRead(s, i, b, e);
      PeekView(s, i, e, t, d);
      NothingRead(t, i + d, checked);
    } else {
      var x := tokens[0];
      var m := i + |x.data|;
      HeadRead(s, i, b, tokens, e);
      ReadsWithin(s, m, true, tokens[1..], e);
      FirstView(s, i, b, x, m, e, t, d, checked);
      ViewPart(s, i, e, t, d, m, e);
      ReadsView(s, m, true, tokens[1..], e, t, d, true);
      ReadsCons(t, i + d, checked, x.(offset := i + d), Moved(tokens[1..], d), e + d);
    }
  }

  lemma NoTokensRead(s: Bytes, i: nat, b: bool, e: nat)
    requires Reads(s, i, b, [], e)
    ensures i == e
  {}

  lemma HeadRead(s: Bytes, i: nat, b: bool, tokens: seq<Token>, e: nat)
    requires tokens != [] && Reads(s, i, b, tokens, e)
    ensures var x := tokens[0];
      && x.data != [] && x.offset == i && i + |x.data| <= |s| && x.data == s[i..i + |x.data|]
      && NextToken(s, i, b) == Lexed(x.id, i + |x.data|, true) && Reads(s, i + |x.data|, true, tokens[1..], e)
  {
    hide NextToken;
  }

  /** One token. */
  lemma FirstView(s: Bytes, i: nat, b: bool, x: Token, m: nat, e: nat, t: Bytes, d: nat, checked: bool)
    requires i < m <= e && View(s, i, e, t, d) && NextToken(s, i, b) == Lexed(x.id, m, true) && x.data == s[i..m]
    requires MarkAt(s, i) && !b ==> d == 0 && !checked
    ensures m + d <= |t| && t[i + d..m + d] == x.data && NextToken(t, i + d, checked) == Lexed(x.id, m + d, true)
  {
    hide NextToken, View, MarkAt;
    MarkIsFirst(s, i, b);
    ViewPart(s, i, e, t, d, i, m);
    TokenView(s, i, b, x.id, m, true, t, d, checked);
    PeekView(s, i, e, t, d);
  }

  lemma ReadsCons(t: Bytes, i: nat, b: bool, x: Token, rest: seq<Token>, e: nat)
    requires x.data != [] && x.offset == i && i + |x.data| <= |t| && x.data == t[i..i + |x.data|]
    requires NextToken(t, i, b) == Lexed(x.id, i + |x.data|, true) && Reads(t, i + |x.data|, true, rest, e)
    ensures Reads(t, i, b, [x] + rest, e)
  {
    hide NextToken;
    assert ([x] + rest)[1..] == rest;
  }

  lemma MarkIsFirst(s: Bytes, i: nat, b: bool)
    requires i <= |s| && NextToken(s, i, b).Lexed?
    ensures MarkAt(s, i) ==> i == 0 && !b
  {}

  // ----- the end of the input -----

  lemma DigitsMove(s: Bytes, x: nat, t: Bytes, d: nat, i: nat, j: nat)
    requires x <= i && x <= |s| && |t| == |s| + d && t[x + d..] == s[x..]
    ensures Lossless.Digits(s, i, j) ==> Lossless.Digits(t, i + d, j + d)
  {
    if Lossless.Digits(s, i, j) {
      forall k | i + d <= k < j + d ensures t[k] == s[k - d] { assert t[x + d..][k - d - x] == s[x..][k - d - x]; }
    }
  }

  /** Where the rest is the same, the input ends for the scanner in both or in neither. */
  lemma EofMoves(s: Bytes, x: nat, b: bool, t: Bytes, d: nat, checked: bool)
    requires x <= |s| && |t| == |s| + d && t[x + d..] == s[x..] && NextToken(s, x, b).LexEof?
    ensures NextToken(t, x + d, checked).LexEof?
  {
    hide NextToken, Lossless.Digits;
    Lossless.EofExactly(s, x, b);
    Lossless.EofExactly(t, x + d, checked);
    if x < |s| {
      assert t[x + d] == t[x + d..][0] == s[x];
      assert t[|t| - 1] == t[x + d..][|s| - 1 - x] == s[x..][|s| - 1 - x] == s[|s| - 1];
      if Lossless.CutNumber(s, x) {
        var a: nat := if s[x] == '+' as int || s[x] == '-' as int then x + 1 else x;
        var j: nat :| Lossless.Digits(s, a, j) && j < |s| && (j == |s| - 1 || (s[j] == '.' as int && Lossless.Digits(s, j + 1, |s| - 1)));
        DigitsMove(s, x, t, d, a, j);
        DigitsMove(s, x, t, d, j + 1, |s| - 1);
        DigitsAreForward(s, a, j);
        assert t[j + d] == t[x + d..][j - x] == s[x..][j - x] == s[j];
        assert Lossless.Digits(t, a + d, j + d);
        assert Lossless.CutNumber(t, x + d);
      }
    }
  }

  lemma DigitsAreForward(s: Bytes, i: nat, j: nat)
    requires Lossless.Digits(s, i, j)
    ensures i < j <= |s|
  {}

  // ----- a text put between two tokens -----

  /** A terminator is read in front of anything but the second half of a line ending. */
  lemma TerminatorStands(s: Bytes, p: nat, b: bool, id: TokenID, e: nat, t: Bytes)
    requires p <= |s| && NextToken(s, p, b) == Lexed(id, e, true) && (id.Newline? || id.Semicolon?)
    requires e <= |t| && s[..e] == t[..e] && (e < |t| ==> t[e] != '\n' as int)
    ensures NextToken(t, p, b) == Lexed(id, e, true) && PeekAt(s, p).Rune? && p + PeekAt(s, p).size <= e
  {
    TerminatorRune(s, p, b);
    var n := PeekAt(s, p).size;
    assert s[p..p + n] == s[..e][p..p + n] == t[p..p + n];
    DecodeLocal(s, p, t, p);
    if PeekAt(s, p).c == '\r' as int {
      assert forall k :: 0 <= k < e ==> s[k] == s[..e][k] == t[..e][k] == t[k];
      Lossless.AsciiAt(s, p + 1, '\n' as int);
      Lossless.AsciiAt(t, p + 1, '\n' as int);
    }
    hide DecodeAt, At, SlashToken, HashToken, DecimalNumber, Identifier, ZeroToken, BlankToken, IsDigit;
  }

  lemma TerminatorRune(s: Bytes, p: nat, b: bool)
    requires p <= |s|
    ensures var r := NextToken(s, p, b); r.Lexed? && (r.id.Newline? || r.id.Semicolon?) ==>
      PeekAt(s, p).Rune? && p + PeekAt(s, p).size <= r.end && (IsNewline(PeekAt(s, p).c) || PeekAt(s, p).c == ';' as int)
  {
    hide DecodeAt, Comment, SkipUntil, NumericBase, DecimalNumber, HashToken, Identifier, SkipWhile;
    if p < |s| { AsciiDecodes(s, p); }
  }

  /**
   * Main result: a text that is put behind a terminator, or in front of everything, is scanned where it stands, and
   * everything around it is scanned as before.
   */
  lemma InsertedScan(s: Bytes, tokens: seq<Token>, stop: nat, k: nat, e: nat, text: Bytes, t: Bytes, inner: seq<Token>)
    requires ScanFrom(s, 0, false) == Scanned(tokens, stop) && k <= |tokens| && Reads(s, 0, false, tokens[..k], e) && e <= |s|
    requires k > 0 ==> tokens[k - 1].id.Newline? || tokens[k - 1].id.Semicolon?
    requires t == s[..e] + text + s[e..] && text != [] && text[0] != '\n' as int
    requires Reads(t, e, k > 0, inner, e + |text|) && (k == 0 ==> !MarkAt(s, 0))
    ensures ScanFrom(t, 0, false) == Scanned(tokens[..k] + inner + Moved(tokens[k..], |text|), stop + |text|)
  {
    hide *;
    Insertion(s, e, text, t);
    InsertedReads(s, tokens, stop, k, e, t, |text|, inner);
  }

  lemma InsertedReads(s: Bytes, tokens: seq<Token>, stop: nat, k: nat, e: nat, t: Bytes, d: nat, inner: seq<Token>)
    requires ScanFrom(s, 0, false) == Scanned(tokens, stop) && k <= |tokens| && Reads(s, 0, false, tokens[..k], e) && e <= |s|
    requires k > 0 ==> tokens[k - 1].id.Newline? || tokens[k - 1].id.Semicolon?
    requires d > 0 && e < |t| == |s| + d && t[..e] == s[..e] && t[e + d..] == s[e..] && t[e] != '\n' as int
    requires Reads(t, e, k > 0, inner, e + d) && (k == 0 ==> !MarkAt(s, 0))
    ensures ScanFrom(t, 0, false) == Scanned(tokens[..k] + inner + Moved(tokens[k..], d), stop + d)
  {
    hide *;
    ScanReads(s, 0, false);
    var e' := ReadsSplit(s, 0, false, tokens, stop, k);
    ReadsEnd(s, 0, false, tokens[..k], e, e');
    ReadsWithin(s, 0, false, tokens[..k], e);
    InnerIsSome(t, e, k > 0, inner, e + d);
    FrontStays(s, tokens[..k], e, t);
    RearStays(s, k > 0, tokens != [], tokens[k..], e, stop, t, d);
    ThreeRead(t, tokens[..k], e, inner, e + d, Moved(tokens[k..], d), stop + d);
  }

  lemma InnerIsSome(t: Bytes, i: nat, b: bool, tokens: seq<Token>, e: nat)
    requires Reads(t, i, b, tokens, e) && i < e
    ensures tokens != []
  {}

  lemma ThreeRead(t: Bytes, x: seq<Token>, e: nat, y: seq<Token>, m: nat, z: seq<Token>, stop: nat)
    requires Reads(t, 0, false, x, e) && Reads(t, e, x != [], y, m) && y != [] && Reads(t, m, true, z, stop) && stop <= |t|
    requires NextToken(t, stop, true).LexEof?
    ensures ScanFrom(t, 0, false) == Scanned(x + y + z, stop)
  {
    hide NextToken, Reads, ScanFrom;
    ReadsAppend(t, 0, false, x, e, y, m);
    ReadsAppend(t, 0, false, x + y, m, z, stop);
    ReadsScan(t, 0, false, x + y + z, stop);
  }

  lemma Insertion(s: Bytes, e: nat, text: Bytes, t: Bytes)
    requires e <= |s| && t == s[..e] + text + s[e..] && text != []
    ensures e < |t| == |s| + |text| && t[..e] == s[..e] && t[e + |text|..] == s[e..] && t[e] == text[0]
  {}

  /** What stands behind the insertion is read at its new place, up to the end of the input. */
  lemma RearStays(s: Bytes, b: bool, last: bool, tokens: seq<Token>, e: nat, stop: nat, t: Bytes, d: nat)
    requires Reads(s, e, b, tokens, stop) && stop <= |s| && NextToken(s, stop, last).LexEof?
    requires e <= |s| && |t| == |s| + d && t[e + d..] == s[e..] && (b || !MarkAt(s, e))
    ensures Reads(t, e + d, true, Moved(tokens, d), stop + d) && NextToken(t, stop + d, true).LexEof?
  {
    hide NextToken, Reads, View, MarkAt;
    ReadsWithin(s, e, b, tokens, stop);
    SuffixView(s, t, e, d);
    ViewPart(s, e, |s|, t, d, e, stop);
    ReadsView(s, e, b, tokens, stop, t, d, true);
    TailOfTail(s, t, e, stop, d);
    EofMoves(s, stop, last, t, d, true);
  }

  lemma TailOfTail(s: Bytes, t: Bytes, e: nat, x: nat, d: nat)
    requires e <= x <= |s| && |t| == |s| + d && t[e + d..] == s[e..]
    ensures t[x + d..] == s[x..]
  {
    assert t[x + d..] == t[e + d..][x - e..] == s[e..][x - e..] == s[x..];
  }

  lemma {:induction false} ReadsEnd(t: Bytes, i: nat, b: bool, tokens: seq<Token>, e: nat, f: nat)
    requires Reads(t, i, b, tokens, e) && Reads(t, i, b, tokens, f)
    ensures e == f
    decreases |tokens|
  {
    hide NextToken;
    if tokens != [] { ReadsEnd(t, i + |tokens[0].data|, true, tokens[1..], e, f); }
  }

  /** Tokens up to a terminator are read whatever is put behind it, but for the second half of a line ending. */
  lemma FrontStays(s: Bytes, tokens: seq<Token>, e: nat, t: Bytes)
    requires Reads(s, 0, false, tokens, e) && e <= |s| && e < |t| && s[..e] == t[..e] && t[e] != '\n' as int
    requires tokens != [] ==> var last := tokens[|tokens| - 1]; last.id.Newline? || last.id.Semicolon?
    ensures Reads(t, 0, false, tokens, e)
  {
    hide NextToken, PeekAt;
    if tokens == [] {
      NothingRead(t, 0, false);
    } else {
      var k := |tokens| - 1;
      var last := tokens[k];
      var p := ReadsSplit(s, 0, false, tokens, e, k);
      assert tokens[k..] == [last];
      ReadsWithin(s, 0, false, tokens[..k], p);
      assert NextToken(s, p, k > 0) == Lexed(last.id, e, true) by { OneRead(s, p, k > 0, last, e); }
      TerminatorStands(s, p, k > 0, last.id, e, t);
      OneRead(s, p, k > 0, last, e);
      PrefixRuneView(s, t, e, 0, p);
      ReadsView(s, 0, false, tokens[..k], p, t, 0, false);
      MovedNowhere(tokens[..k]);
      assert t[p..e] == t[..e][p..e] == s[..e][p..e] == s[p..e];
      ReadsOne(t, p, k > 0, last);
      ReadsAppend(t, 0, false, tokens[..k], p, [last], e);
      assert tokens[..k] + [last] == tokens;
    }
  }

  lemma OneRead(t: Bytes, i: nat, b: bool, x: Token, e: nat)
    requires Reads(t, i, b, [x], e)
    ensures i <= |t| && NextToken(t, i, b) == Lexed(x.id, e, true) && x.offset == i && e == i + |x.data| <= |t| && x.data == t[i..e] && x.data != []
  {
    hide NextToken;
    assert [x][1..] == [];
  }
}
