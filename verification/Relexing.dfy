// A value or a name that was scanned once is scanned again, wherever its bytes are put, in front of the characters that
// the writer puts behind it.
module Relexing {
  import opened Basics
  import opened Tokens
  import opened Utf8
  import opened Spellings
  import opened Lexer
  import Lossless
  import Refusal
  import Strings

  /** The bytes of t from i to e stand in u at k, in front of a space, a line feed or a closing parenthesis. */
  predicate Moved(t: Bytes, i: nat, e: nat, u: Bytes, k: nat) {
    && i <= e <= |t| && k + (e - i) < |u|
    && (forall m :: i <= m < e ==> u[k + (m - i)] == t[m])
    && (u[k + (e - i)] == 0x20 || u[k + (e - i)] == 0x0A || u[k + (e - i)] == ')' as int)
  }

  /** A part of it, up to the same end. */
  lemma MovedPart(t: Bytes, i: nat, e: nat, u: Bytes, k: nat, x: nat)
    requires Moved(t, i, e, u, k) && i <= x <= e
    ensures Moved(t, x, e, u, k + (x - i))
  {
    forall m | x <= m < e ensures u[k + (x - i) + (m - x)] == t[m] {
      assert u[k + (m - i)] == t[m];
    }
  }

  lemma SameText(t: Bytes, x: nat, e: nat, u: Bytes, y: nat)
    requires Moved(t, x, e, u, y)
    ensures u[y..y + (e - x)] == t[x..e]
  {
    forall m | 0 <= m < e - x ensures u[y..y + (e - x)][m] == t[x..e][m] { assert u[y + (x + m - x)] == t[x + m]; }
  }

  lemma PeekMoves(t: Bytes, x: nat, e: nat, u: Bytes, y: nat)
    requires Moved(t, x, e, u, y) && x < e && PeekAt(t, x).Rune? && x + PeekAt(t, x).size <= e
    ensures PeekAt(u, y) == PeekAt(t, x)
  {
    var n := PeekAt(t, x).size;
    SameText(t, x, e, u, y);
    assert u[y..y + n] == u[y..y + (e - x)][..n] && t[x..x + n] == t[x..e][..n];
    DecodeLocal(t, x, u, y);
  }

  lemma PeekEnds(t: Bytes, e: nat, u: Bytes, y: nat)
    requires Moved(t, e, e, u, y)
    ensures PeekAt(u, y) == Rune(u[y], 1)
  {
    AsciiDecodes(u, y);
  }

  /** Where a run stops: in front of something readable, or at the end of the token. */
  predicate Stops(t: Bytes, j: nat, e: nat) {
    j <= e <= |t| && (j < e ==> PeekAt(t, j).Rune? && j + PeekAt(t, j).size <= e)
  }

  /** None of the characters behind the token continues the run. */
  ghost predicate Rejects(p: Test, n: nat) {
    forall m: nat :: m >= n ==> !p(m, 0x20) && !p(m, 0x0A) && !p(m, ')' as int)
  }

  lemma {:induction false} SkipMoves(t: Bytes, x: nat, e: nat, u: Bytes, y: nat, n: nat, p: Test)
    requires Moved(t, x, e, u, y) && Stops(t, SkipWhile(t, x, n, p), e)
    requires SkipWhile(t, x, n, p) == e ==> Rejects(p, n)
    ensures SkipWhile(u, y, n, p) == y + (SkipWhile(t, x, n, p) - x)
    decreases e - x
  {
    hide Moved, SkipWhile, DecodeAt, PeekAt, Rejects;
    var r := PeekAt(t, x);
    if x == e {
      EndStops(t, e, u, y, n, p);
    } else if r.Rune? && p(n, r.c) {
      SkipMonotone(t, x, n, p);
      assert x + r.size <= SkipWhile(t, x, n, p) <= e;
      PeekMoves(t, x, e, u, y);
      SkipMonotone(u, y, n, p);
      MovedPart(t, x, e, u, y, x + r.size);
      RejectsLater(p, n);
      SkipMoves(t, x + r.size, e, u, y + r.size, n + 1, p);
    } else {
      SkipStays(t, x, n, p);
      assert Stops(t, x, e);
      StoppedMoves(t, x, e, u, y, n, p);
    }
  }

  lemma EndStops(t: Bytes, e: nat, u: Bytes, y: nat, n: nat, p: Test)
    requires Moved(t, e, e, u, y) && SkipWhile(t, e, n, p) <= e && (SkipWhile(t, e, n, p) == e ==> Rejects(p, n))
    ensures SkipWhile(t, e, n, p) == e && SkipWhile(u, y, n, p) == y
  {
    assert !p(n, 0x20) && !p(n, 0x0A) && !p(n, ')' as int);
    PeekEnds(t, e, u, y);
  }

  lemma RejectsLater(p: Test, n: nat)
    ensures Rejects(p, n) ==> Rejects(p, n + 1)
  {}

  lemma StoppedMoves(t: Bytes, x: nat, e: nat, u: Bytes, y: nat, n: nat, p: Test)
    requires Moved(t, x, e, u, y) && x < e && Stops(t, x, e) && !p(n, PeekAt(t, x).c)
    ensures SkipWhile(u, y, n, p) == y
  {
    hide DecodeAt, PeekAt, SkipWhile;
    PeekMoves(t, x, e, u, y);
    SkipStays(u, y, n, p);
  }

  lemma SkipStays(t: Bytes, x: nat, n: nat, p: Test)
    requires x <= |t| && !(PeekAt(t, x).Rune? && p(n, PeekAt(t, x).c))
    ensures SkipWhile(t, x, n, p) == x
  {}

  lemma SkipMonotone(t: Bytes, x: nat, n: nat, p: Test)
    requires x <= |t| && PeekAt(t, x).Rune? && p(n, PeekAt(t, x).c)
    ensures SkipWhile(t, x, n, p) == SkipWhile(t, x + PeekAt(t, x).size, n + 1, p) >= x + PeekAt(t, x).size
  {}

  // ----- quoted strings -----

  lemma {:induction false} QuotedMoves(t: Bytes, x: nat, e: nat, u: Bytes, y: nat, escaped: bool)
    requires Moved(t, x, e, u, y) && QuotedEnd(t, x, escaped) == Some(e)
    ensures QuotedEnd(u, y, escaped) == Some(y + (e - x))
    decreases e - x
  {
    hide DecodeAt, IsWhiteSpace, IsNewline, PeekAt;
    var r := PeekAt(t, x);
    PeekMoves(t, x, e, u, y);
    var z := x + r.size;
    MovedPart(t, x, e, u, y, z);
    if escaped && (IsNewline(r.c) || IsWhiteSpace(r.c)) {
      var j := SkipWhile(t, z, 0, LINE_SPACE);
      QuotedStops(t, j, e);
      SkipMoves(t, z, e, u, y + r.size, 0, LINE_SPACE);
      MovedPart(t, z, e, u, y + r.size, j);
      QuotedMoves(t, j, e, u, y + (j - x), false);
    } else if escaped || r.c != '"' as int {
      QuotedMoves(t, z, e, u, y + r.size, !escaped && r.c == '\\' as int);
    }
  }

  /** A string that goes on starts with something readable. */
  lemma QuotedStops(t: Bytes, j: nat, e: nat)
    requires j <= |t| && QuotedEnd(t, j, false) == Some(e)
    ensures j < e && Stops(t, j, e)
  {}

  lemma {:induction false} MultiQuotedMoves(t: Bytes, x: nat, e: nat, u: Bytes, y: nat, escaped: bool, quotes: nat)
    requires Moved(t, x, e, u, y) && MultiQuotedEnd(t, x, escaped, quotes) == Some(e)
    ensures MultiQuotedEnd(u, y, escaped, quotes) == Some(y + (e - x))
    decreases e - x
  {
    hide DecodeAt, PeekAt;
    var r := PeekAt(t, x);
    PeekMoves(t, x, e, u, y);
    var z := x + r.size;
    MovedPart(t, x, e, u, y, z);
    if escaped {
      MultiQuotedMoves(t, z, e, u, y + r.size, false, 0);
    } else if r.c == '\\' as int {
      MultiQuotedMoves(t, z, e, u, y + r.size, true, 0);
    } else if r.c == '"' as int {
      if quotes + 1 < 3 { MultiQuotedMoves(t, z, e, u, y + r.size, false, quotes + 1); }
    } else {
      MultiQuotedMoves(t, z, e, u, y + r.size, false, 0);
    }
  }

  lemma AtMoves(t: Bytes, x: nat, e: nat, u: Bytes, y: nat, c: Rune)
    requires Moved(t, x, e, u, y) && 0 <= c < 0x80 && c != 0x20 && c != 0x0A && c != ')' as int
    ensures x < e ==> (At(u, y, c) <==> At(t, x, c))
    ensures x == e ==> !At(u, y, c)
  {
    Lossless.AsciiAt(t, x, c);
    Lossless.AsciiAt(u, y, c);
    if x < e { assert u[y + (x - x)] == t[x]; }
  }

  lemma QuotedTextMoves(t: Bytes, x: nat, e: nat, u: Bytes, y: nat, id: TokenID)
    requires x < e && Moved(t, x, e, u, y) && QuotedText(t, x) == Some((id, e))
    ensures QuotedText(u, y) == Some((id, y + (e - x)))
  {
    hide QuotedEnd, MultiQuotedEnd, At;
    MovedPart(t, x, e, u, y, x + 1);
    AtMoves(t, x + 1, e, u, y + 1, '"' as int);
    if x + 2 <= e {
      MovedPart(t, x, e, u, y, x + 2);
      AtMoves(t, x + 2, e, u, y + 2, '"' as int);
    }
    if id.MultilineString? {
      MovedPart(t, x, e, u, y, x + 3);
      MultiQuotedMoves(t, x + 3, e, u, y + 3, false, 0);
    } else {
      QuotedMoves(t, x + 1, e, u, y + 1, false);
    }
  }

  // ----- raw strings -----

  lemma {:induction false} HashesAre(s: Bytes, x: nat, max: nat, n: nat)
    requires x <= |s| && n <= max && x + n <= |s| && (forall m :: x <= m < x + n ==> s[m] == '#' as int)
    requires n < max ==> !At(s, x + n, '#' as int)
    ensures Hashes(s, x, max) == n
    decreases n
  {
    Lossless.AsciiAt(s, x, '#' as int);
    if n > 0 { HashesAre(s, x + 1, max - 1, n - 1); }
  }

  lemma {:induction false} HashesSpec(s: Bytes, x: nat, max: nat)
    requires x <= |s|
    ensures var n := Hashes(s, x, max);
      (forall m :: x <= m < x + n ==> s[m] == '#' as int) && (n < max ==> !At(s, x + n, '#' as int))
    decreases max
  {
    Lossless.AsciiAt(s, x, '#' as int);
    if max > 0 && At(s, x, '#' as int) { HashesSpec(s, x + 1, max - 1); }
  }

  lemma HashesMove(t: Bytes, x: nat, e: nat, u: Bytes, y: nat, max: nat, most: nat)
    requires Moved(t, x, e, u, y) && x + Hashes(t, x, max) <= e
    requires most == max || (x + Hashes(t, x, max) < e && Hashes(t, x, max) < max && Hashes(t, x, max) < most)
    ensures Hashes(u, y, most) == Hashes(t, x, max)
  {
    var n := Hashes(t, x, max);
    HashesSpec(t, x, max);
    forall m | y <= m < y + n ensures u[m] == '#' as int { assert u[y + (x + (m - y) - x)] == t[x + (m - y)]; }
    if n < most {
      MovedPart(t, x, e, u, y, x + n);
      AtMoves(t, x + n, e, u, y + n, '#' as int);
    }
    HashesAre(u, y, most, n);
  }

  lemma {:induction false} RawMoves(t: Bytes, x: nat, e: nat, u: Bytes, y: nat, n: nat)
    requires Moved(t, x, e, u, y) && Raw(t, x, n) == Some(e)
    ensures Raw(u, y, n) == Some(y + (e - x))
    decreases e - x
  {
    hide DecodeAt, PeekAt, Hashes, IsNewline;
    var r := PeekAt(t, x);
    PeekMoves(t, x, e, u, y);
    var z := x + r.size;
    MovedPart(t, x, e, u, y, z);
    if r.c == '"' as int {
      HashesMove(t, z, e, u, y + r.size, n, n);
      var m := Hashes(t, z, n);
      if m != n {
        MovedPart(t, z, e, u, y + r.size, z + m);
        RawMoves(t, z + m, e, u, y + r.size + m, n);
      }
    } else {
      RawMoves(t, z, e, u, y + r.size, n);
    }
  }

  lemma {:induction false} MultiRawMoves(t: Bytes, x: nat, e: nat, u: Bytes, y: nat, quotes: nat, n: nat)
    requires Moved(t, x, e, u, y) && MultiRaw(t, x, quotes, n) == Some(e)
    ensures MultiRaw(u, y, quotes, n) == Some(y + (e - x))
    decreases e - x
  {
    hide DecodeAt, PeekAt, Hashes;
    var r := PeekAt(t, x);
    PeekMoves(t, x, e, u, y);
    var z := x + r.size;
    MovedPart(t, x, e, u, y, z);
    if r.c == '"' as int {
      if quotes + 1 >= 3 {
        HashesMove(t, z, e, u, y + r.size, n, n);
        var m := Hashes(t, z, n);
        if m != n {
          MovedPart(t, z, e, u, y + r.size, z + m);
          MultiRawMoves(t, z + m, e, u, y + r.size + m, 0, n);
        }
      } else {
        MultiRawMoves(t, z, e, u, y + r.size, quotes + 1, n);
      }
    } else {
      MultiRawMoves(t, z, e, u, y + r.size, 0, n);
    }
  }

  lemma RawTextMoves(t: Bytes, x: nat, e: nat, u: Bytes, y: nat, n: nat, id: TokenID)
    requires x < e && Moved(t, x, e, u, y) && RawText(t, x, n) == Some((id, e)) && n > 0
    ensures RawText(u, y, n) == Some((id, y + (e - x)))
  {
    hide Raw, MultiRaw, At;
    MovedPart(t, x, e, u, y, x + 1);
    AtMoves(t, x + 1, e, u, y + 1, '"' as int);
    if x + 2 <= e {
      MovedPart(t, x, e, u, y, x + 2);
      AtMoves(t, x + 2, e, u, y + 2, '"' as int);
    }
    if id.MultilineRawString? {
      MovedPart(t, x, e, u, y, x + 3);
      MultiRawMoves(t, x + 3, e, u, y + 3, 0, n);
    } else {
      RawMoves(t, x + 1, e, u, y + 1, n);
    }
  }

  // ----- hash keywords and numbers -----

  lemma HashMoves(t: Bytes, x: nat, e: nat, u: Bytes, y: nat, id: TokenID)
    requires x < e && Moved(t, x, e, u, y) && At(t, x, '#' as int) && HashToken(t, x) == Some((id, e))
    ensures At(u, y, '#' as int) && HashToken(u, y) == Some((id, y + (e - x)))
  {
    hide Raw, MultiRaw, At, Hashes, SkipWhile, KeywordToken, RawText, PeekAt;
    AtMoves(t, x, e, u, y, '#' as int);
    var n := Hashes(t, x, |t| - x);
    var j := x + n;
    HashesAtStart(t, x, e, u, y, id);
    MovedPart(t, x, e, u, y, j);
    AtMoves(t, j, e, u, y + n, '"' as int);
    if At(t, j, '"' as int) {
      RawTextMoves(t, j, e, u, y + n, n, id);
    } else {
      KeywordMoves(t, j, e, u, y + n);
    }
  }

  lemma HashesAtStart(t: Bytes, x: nat, e: nat, u: Bytes, y: nat, id: TokenID)
    requires x < e && Moved(t, x, e, u, y) && At(t, x, '#' as int) && HashToken(t, x) == Some((id, e))
    ensures var n := Hashes(t, x, |t| - x); 0 < n && x + n < e && Hashes(u, y, |u| - y) == n
  {
    hide RawText, KeywordToken, SkipWhile;
    var n := Hashes(t, x, |t| - x);
    HashesSpec(t, x, |t| - x);
    HashesMove(t, x, e, u, y, |t| - x, |u| - y);
  }

  lemma KeywordMoves(t: Bytes, j: nat, e: nat, u: Bytes, y: nat)
    requires Moved(t, j, e, u, y) && PeekAt(t, j).Rune? && ReadWhile(t, j, KEYWORD, 1) == Some(e)
    ensures PeekAt(u, y).Rune? && ReadWhile(u, y, KEYWORD, 1) == Some(y + (e - j)) && u[y..y + (e - j)] == t[j..e]
  {
    RunMoves(t, j, e, u, y, KEYWORD, 1);
    SameText(t, j, e, u, y);
    PeekInside(t, j, e, KEYWORD);
    PeekMoves(t, j, e, u, y);
  }

  lemma PeekInside(t: Bytes, j: nat, e: nat, p: Test)
    requires j < e <= |t| && SkipWhile(t, j, 0, p) == e
    ensures PeekAt(t, j).Rune? && j + PeekAt(t, j).size <= e
  {
    hide DecodeAt, PeekAt;
    if p(0, PeekAt(t, j).c) { SkipMonotone(t, j, 0, p); }
  }

  /** A whole run with a minimal length. */
  lemma RunMoves(t: Bytes, x: nat, e: nat, u: Bytes, y: nat, p: Test, min: nat)
    requires Moved(t, x, e, u, y) && ReadWhile(t, x, p, min) == Some(e) && Rejects(p, 0)
    ensures ReadWhile(u, y, p, min) == Some(y + (e - x))
  {
    SkipMoves(t, x, e, u, y, 0, p);
    MovedPart(t, x, e, u, y, e);
    PeekEnds(t, e, u, y + (e - x));
  }

  lemma IntegerMoves(t: Bytes, x: nat, j: nat, e: nat, u: Bytes, y: nat)
    requires Moved(t, x, e, u, y) && Integer(t, x) == Some(j) && j <= e && (j < e ==> t[j] < 0x80)
    ensures Integer(u, y) == Some(y + (j - x))
  {
    if j < e { AsciiDecodes(t, j); }
    SkipMoves(t, x, e, u, y, 0, DIGITS_AND_UNDERSCORES);
    MovedPart(t, x, e, u, y, j);
    if j < e { PeekMoves(t, j, e, u, y + (j - x)); } else { PeekEnds(t, e, u, y + (e - x)); }
  }

  lemma SignedMoves(t: Bytes, x: nat, j: nat, e: nat, u: Bytes, y: nat)
    requires Moved(t, x, e, u, y) && SignedInteger(t, x) == Some(j) && j <= e && (j < e ==> t[j] < 0x80)
    ensures SignedInteger(u, y) == Some(y + (j - x))
  {
    hide Integer, At;
    AtMoves(t, x, e, u, y, '+' as int);
    AtMoves(t, x, e, u, y, '-' as int);
    if At(t, x, '+' as int) || At(t, x, '-' as int) {
      MovedPart(t, x, e, u, y, x + 1);
      IntegerMoves(t, x + 1, j, e, u, y + 1);
    } else {
      IntegerMoves(t, x, j, e, u, y);
    }
  }

  lemma FractionMoves(t: Bytes, x: nat, k: nat, e: nat, u: Bytes, y: nat)
    requires Moved(t, x, e, u, y) && Fraction(t, x) == Some(k) && k <= e && (k < e ==> t[k] < 0x80)
    ensures Fraction(u, y) == Some(y + (k - x))
  {
    hide Integer, At;
    AtMoves(t, x, e, u, y, '.' as int);
    if x < e && At(t, x, '.' as int) {
      MovedPart(t, x, e, u, y, x + 1);
      IntegerMoves(t, x + 1, k, e, u, y + 1);
    } else if x == e {
      NoFraction(t, x, k);
    }
  }

  lemma NoFraction(t: Bytes, x: nat, k: nat)
    requires x <= |t| && Fraction(t, x) == Some(k) && k <= x
    ensures k == x && !At(t, x, '.' as int)
  {
    hide Integer, At;
  }

  lemma ExponentIsAscii(t: Bytes, k: nat)
    requires k <= |t| && AtExponent(t, k)
    ensures k < |t| && t[k] < 0x80
  {
    Lossless.AsciiAt(t, k, 'e' as int);
    Lossless.AsciiAt(t, k, 'E' as int);
  }

  lemma PointIsAscii(t: Bytes, k: nat)
    requires k <= |t| && At(t, k, '.' as int)
    ensures k < |t| && t[k] < 0x80
  {
    Lossless.AsciiAt(t, k, '.' as int);
  }

  lemma DecimalMoves(t: Bytes, x: nat, e: nat, u: Bytes, y: nat)
    requires Moved(t, x, e, u, y) && u[y + (e - x)] != ')' as int && DecimalNumber(t, x) == Lexed(Decimal, e, true)
    ensures DecimalNumber(u, y) == Lexed(Decimal, y + (e - x), true)
  {
    hide SignedInteger, At, PeekAt, Fraction, AtExponent, IsSeparator;
    var j := SignedInteger(t, x).value;
    var k := Fraction(t, j).value;
    if AtExponent(t, k) { ExponentIsAscii(t, k); }
    NothingAfterPoint(t, j, k);
    SignedMoves(t, x, j, e, u, y);
    MovedPart(t, x, e, u, y, j);
    FractionMoves(t, j, k, e, u, y + (j - x));
    MovedPart(t, x, e, u, y, k);
    ExponentMoves(t, k, e, u, y + (k - x));
    if AtExponent(t, k) {
      MovedPart(t, x, e, u, y, k + 1);
      SignedMoves(t, k + 1, e, e, u, y + (k + 1 - x));
    }
    MovedPart(t, x, e, u, y, e);
    PeekEnds(t, e, u, y + (e - x));
    BlankSeparates(u[y + (e - x)]);
  }

  lemma BlankSeparates(c: Byte)
    ensures c == 0x20 || c == 0x0A ==> IsSeparator(c)
  {}

  /** Behind an integer stands its point, or its fraction is empty. */
  lemma NothingAfterPoint(t: Bytes, j: nat, k: nat)
    requires j <= |t| && Fraction(t, j) == Some(k)
    ensures j == k || (j < k && t[j] < 0x80)
  {
    hide Integer, At;
    if At(t, j, '.' as int) { PointIsAscii(t, j); }
  }

  lemma ExponentMoves(t: Bytes, k: nat, e: nat, u: Bytes, y: nat)
    requires Moved(t, k, e, u, y)
    ensures k < e ==> (AtExponent(u, y) <==> AtExponent(t, k))
    ensures k == e ==> !AtExponent(u, y)
  {
    hide At;
    AtMoves(t, k, e, u, y, 'e' as int);
    AtMoves(t, k, e, u, y, 'E' as int);
  }

  lemma BaseMoves(t: Bytes, x: nat, e: nat, u: Bytes, y: nat, id: TokenID)
    requires Moved(t, x, e, u, y) && u[y + (e - x)] != ')' as int && NumericBase(t, x, id) == Some(e)
    requires x + 2 <= |t| && t[x] == '0' as int && t[x + 1] < 0x80
    ensures NumericBase(u, y, id) == Some(y + (e - x))
  {
    hide SkipWhile;
    var p := AfterPrefix(id);
    assert u[y + (x - x)] == t[x] && u[y + (x + 1 - x)] == t[x + 1] && u[y + (x + 2 - x)] == t[x + 2];
    PrefixSkips(t, x, id);
    PrefixSkips(u, y, id);
    MovedPart(t, x, e, u, y, x + 2);
    PrefixRejects(id);
    SkipMoves(t, x + 2, e, u, y + 2, 2, p);
    MovedPart(t, x, e, u, y, e);
    PeekEnds(t, e, u, y + (e - x));
  }

  lemma PrefixRejects(id: TokenID)
    ensures Rejects(AfterPrefix(id), 2)
  {
    var p := AfterPrefix(id);
    forall m: nat | m >= 2 ensures !p(m, 0x20) && !p(m, 0x0A) && !p(m, ')' as int) {
      assert !Hex(0x20) && !Oct(0x20) && !Bin(0x20);
      assert !Hex(0x0A) && !Oct(0x0A) && !Bin(0x0A);
      assert !Hex(')' as int) && !Oct(')' as int) && !Bin(')' as int);
    }
  }

  lemma PrefixSkips(t: Bytes, x: nat, id: TokenID)
    requires x + 2 <= |t| && t[x] < 0x80 && t[x + 1] < 0x80
    ensures SkipWhile(t, x, 0, AfterPrefix(id)) == SkipWhile(t, x + 2, 2, AfterPrefix(id))
  {
    AsciiDecodes(t, x);
    AsciiDecodes(t, x + 1);
  }

  lemma ZeroMoves(t: Bytes, x: nat, e: nat, u: Bytes, y: nat, id: TokenID)
    requires x < e && Moved(t, x, e, u, y) && u[y + (e - x)] != ')' as int
    requires At(t, x, '0' as int) && ZeroToken(t, x) == Lexed(id, e, true)
    ensures At(u, y, '0' as int) && ZeroToken(u, y) == Lexed(id, y + (e - x), true)
  {
    hide NumericBase, DecimalNumber;
    Lossless.AsciiAt(t, x, '0' as int);
    AtMoves(t, x, e, u, y, '0' as int);
    MovedPart(t, x, e, u, y, x + 1);
    if id.Decimal? {
      DecimalMoves(t, x, e, u, y);
      if x + 1 == e {
        PeekEnds(t, e, u, y + 1);
      } else {
        Refusal.NumberIsNumeric(t, x);
        AsciiDecodes(t, x + 1);
        PeekMoves(t, x + 1, e, u, y + 1);
      }
    } else {
      BaseIsLong(t, x, id, e);
      AsciiDecodes(t, x + 1);
      PeekMoves(t, x + 1, e, u, y + 1);
      BaseMoves(t, x, e, u, y, id);
    }
  }

  lemma BaseIsLong(t: Bytes, x: nat, id: TokenID, e: nat)
    requires x <= |t| && NumericBase(t, x, id) == Some(e)
    ensures x + 3 <= e
  {
    hide SkipWhile;
  }

  // ----- bare identifiers -----

  lemma {:induction false} BareBack(t: Bytes, i: nat, x: nat, e: nat, n: nat)
    requires i <= x <= e <= |t| && SkipWhile(t, x, n, BARE_CHARS) == e
    ensures BareFrom(t[i..e], x - i) && RunesFrom(t[i..e], x - i)
    decreases e - x
  {
    hide IsBareChar, DecodeAt, PeekAt;
    if x < e {
      var r := PeekAt(t, x);
      RunGoesOn(t, x, e, n);
      SkipMonotone(t, x, n, BARE_CHARS);
      var w := t[i..e];
      SliceOfSlice(t, i, e, x - i, x - i + r.size);
      PeekLocal(t, x, w, x - i);
      BareBack(t, i, x + r.size, e, n + 1);
    }
  }

  lemma RunGoesOn(t: Bytes, x: nat, e: nat, n: nat)
    requires x < e <= |t| && SkipWhile(t, x, n, BARE_CHARS) == e
    ensures PeekAt(t, x).Rune? && IsBareChar(PeekAt(t, x).c)
  {}

  lemma PeekLocal(t: Bytes, x: nat, w: Bytes, y: nat)
    requires x < |t| && PeekAt(t, x).Rune? && y + PeekAt(t, x).size <= |w|
    requires w[y..y + PeekAt(t, x).size] == t[x..x + PeekAt(t, x).size]
    ensures PeekAt(w, y) == PeekAt(t, x) && DecodeAt(w, y) == DecodeAt(t, x)
    ensures y < |w| && Strings.Next(w, y) == y + PeekAt(t, x).size
  {
    DecodeLocal(t, x, w, y);
  }

  /** A word that the scanner reads bare is a name that the writer prints bare, and one that reads back. */
  lemma BareWordIsName(t: Bytes, i: nat, e: nat)
    requires i <= |t| && BareWord(t, i) == Some(e)
    ensures var w := t[i..e]; IsBareName(w) && RunesFrom(w, 0) && !Reserved(w) && !LooksNumeric(w)
  {
    hide SkipWhile, IsBareChar, Reserved;
    BareBack(t, i, i, e, 0);
    var w := t[i..e];
    var r := PeekAt(t, i);
    RunGoesOn(t, i, e, 0);
    SkipMonotone(t, i, 0, BARE_CHARS);
    assert w[0..r.size] == t[i..i + r.size];
    PeekLocal(t, i, w, 0);
    SignsStartNames();
    if LooksNumeric(w) {
      assert w[0] == t[i] && w[1] == t[i + 1];
      AsciiDecodes(t, i);
      AsciiDecodes(t, i + 1);
    }
  }

  lemma SignsStartNames()
    ensures IsBareStart('+' as int) && IsBareStart('-' as int)
  {}

  lemma BareMoves(t: Bytes, i: nat, e: nat, u: Bytes, y: nat, checked: bool)
    requires i < e && Moved(t, i, e, u, y) && Identifier(t, i) == Some((BareIdentifier, e))
    ensures NextToken(u, y, checked) == Lexed(BareIdentifier, y + (e - i), true)
  {
    hide BareWord, NextToken, QuotedText, IsPunctuation, IsBareStart, IsBareName, RunesFrom, Reserved, LooksNumeric, DecodeAt;
    IdentifierIsWord(t, i, e);
    BareWordIsName(t, i, e);
    SameText(t, i, e, u, y);
    StopsNames();
    BareNameRoundTrip(t[i..e], u, y, checked);
  }

  lemma StopsNames()
    ensures !IsBareChar(0x20) && !IsBareChar(0x0A) && !IsBareChar(')' as int)
  {}

  lemma IdentifierIsWord(t: Bytes, i: nat, e: nat)
    requires i < |t| && Identifier(t, i) == Some((BareIdentifier, e))
    ensures BareWord(t, i) == Some(e)
  {
    hide BareWord, IsPunctuation, IsBareStart, QuotedEnd, MultiQuotedEnd;
  }

  // ----- all values -----

  lemma HashStarts(u: Bytes, y: nat, checked: bool)
    requires At(u, y, '#' as int)
    ensures y < |u| && NextToken(u, y, checked) == Lift(HashToken(u, y))
  {
    hide HashToken;
    Lossless.AsciiAt(u, y, '#' as int);
    HashIsOrdinary();
  }

  lemma HashIsOrdinary()
    ensures var c := '#' as int; c != 0xFEFF && !IsWhiteSpace(c) && !IsNewline(c)
  {}

  lemma BareIsIdentifier(t: Bytes, i: nat, b: bool, e: nat)
    requires i <= |t| && NextToken(t, i, b) == Lexed(BareIdentifier, e, true) && PeekAt(t, i).c != '#' as int
    ensures i < e && Identifier(t, i) == Some((BareIdentifier, e))
  {
    hide SkipWhile, HashToken, DecimalNumber, Identifier, DecodeAt, IsWhiteSpace, IsNewline, NumericBase, Comment, SkipUntil;
  }

  lemma QuoteMoves(t: Bytes, i: nat, b: bool, id: TokenID, e: nat, u: Bytes, y: nat, checked: bool)
    requires i <= |t| && NextToken(t, i, b) == Lexed(id, e, true) && At(t, i, '"' as int) && Moved(t, i, e, u, y)
    ensures NextToken(u, y, checked) == Lexed(id, y + (e - i), true)
  {
    hide QuotedText, NextToken;
    Lossless.AsciiAt(t, i, '"' as int);
    Refusal.QuoteStartsEntry(t, i);
    assert NextToken(t, i, b) == Lift(QuotedText(t, i));
    assert u[y + (i - i)] == t[i];
    Refusal.QuoteStartsEntry(u, y);
    QuotedTextMoves(t, i, e, u, y, id);
  }

  /** A digit other than zero, or a sign in front of a digit. */
  predicate DecimalStartsAt(t: Bytes, i: nat) {
    ((At(t, i, '+' as int) || At(t, i, '-' as int)) && DigitAt(t, i + 1)) || (DigitAt(t, i) && !At(t, i, '0' as int))
  }

  /** What starts with neither a quote nor a hash, and is not bare, is a number. */
  lemma NumberCases(t: Bytes, i: nat, b: bool, id: TokenID, e: nat)
    requires i <= |t| && NextToken(t, i, b) == Lexed(id, e, true) && IsValue(id) && !id.BareIdentifier?
    requires PeekAt(t, i).c != '#' as int && PeekAt(t, i).c != '"' as int
    ensures i < e && !IsIdentifier(id)
    ensures (At(t, i, '0' as int) && ZeroToken(t, i) == Lexed(id, e, true))
      || (id.Decimal? && DecimalNumber(t, i) == Lexed(id, e, true) && DecimalStartsAt(t, i))
  {
    hide SkipWhile, HashToken, DecimalNumber, DecodeAt, IsWhiteSpace, IsNewline, NumericBase, Comment, SkipUntil, BareWord, QuotedText,
      IsPunctuation, IsBareStart;
  }

  /** A digit stands there. */
  predicate DigitAt(t: Bytes, i: nat) {
    i <= |t| && PeekAt(t, i).Rune? && IsDigit(PeekAt(t, i).c)
  }

  lemma NumberMoves(t: Bytes, i: nat, b: bool, id: TokenID, e: nat, u: Bytes, y: nat, checked: bool)
    requires i <= |t| && NextToken(t, i, b) == Lexed(id, e, true) && IsValue(id) && !id.BareIdentifier?
    requires PeekAt(t, i).c != '#' as int && PeekAt(t, i).c != '"' as int
    requires Moved(t, i, e, u, y) && (u[y + (e - i)] == ')' as int ==> IsIdentifier(id))
    ensures NextToken(u, y, checked) == Lexed(id, y + (e - i), true)
  {
    hide ZeroToken, DecimalNumber, DecodeAt, NextToken, At, DigitAt, DecimalStartsAt;
    NumberCases(t, i, b, id, e);
    if At(t, i, '0' as int) && ZeroToken(t, i) == Lexed(id, e, true) {
      ZeroMoves(t, i, e, u, y, id);
      ZeroStarts(u, y, checked);
    } else {
      DecimalMoves(t, i, e, u, y);
      DecimalStarts(t, i, e, u, y, checked);
    }
  }

  lemma ZeroStarts(u: Bytes, y: nat, checked: bool)
    requires At(u, y, '0' as int)
    ensures y < |u| && NextToken(u, y, checked) == ZeroToken(u, y)
  {
    hide ZeroToken;
    Lossless.AsciiAt(u, y, '0' as int);
    DigitIsOrdinary('0' as int);
  }

  lemma DigitIsOrdinary(c: Rune)
    requires IsDigit(c) || c == '+' as int || c == '-' as int
    ensures c != 0xFEFF && !IsWhiteSpace(c) && !IsNewline(c) && Punctuation(c).None? && c != '/' as int && c != '#' as int && c != '\r' as int
    ensures 0 <= c < 0x80
  {}

  lemma SignedIsLong(t: Bytes, i: nat, e: nat)
    requires i < |t| && (At(t, i, '+' as int) || At(t, i, '-' as int)) && DecimalNumber(t, i) == Lexed(Decimal, e, true)
    ensures i + 1 < e
  {
    hide Integer, At, AtExponent, PeekAt;
  }

  lemma DecimalStarts(t: Bytes, i: nat, e: nat, u: Bytes, y: nat, checked: bool)
    requires i < e && Moved(t, i, e, u, y) && DecimalNumber(t, i) == Lexed(Decimal, e, true)
    requires DecimalStartsAt(t, i)
    ensures NextToken(u, y, checked) == DecimalNumber(u, y)
  {
    var c := PeekAt(t, i).c;
    DigitIsOrdinary(c);
    hide DecimalNumber, Identifier, DecodeAt, IsWhiteSpace, IsNewline, Punctuation;
    AsciiRune(t, i);
    PeekMoves(t, i, e, u, y);
    if c == '+' as int || c == '-' as int {
      SignedIsLong(t, i, e);
      AsciiRune(t, i + 1);
      MovedPart(t, i, e, u, y, i + 1);
      PeekMoves(t, i + 1, e, u, y + 1);
    }
  }

  lemma AsciiRune(t: Bytes, i: nat)
    requires i <= |t| && PeekAt(t, i).Rune? && 0 <= PeekAt(t, i).c < 0x80
    ensures PeekAt(t, i).size == 1
  {
    AsciiDecodes(t, i);
  }

  /** Main result: a value token is read again in front of a space or a line feed, and a name in front of a parenthesis too. */
  lemma ValueMoves(t: Bytes, i: nat, b: bool, id: TokenID, e: nat, u: Bytes, y: nat, checked: bool)
    requires i <= |t| && NextToken(t, i, b) == Lexed(id, e, true) && IsValue(id)
    requires Moved(t, i, e, u, y) && (u[y + (e - i)] == ')' as int ==> IsIdentifier(id))
    ensures NextToken(u, y, checked) == Lexed(id, y + (e - i), true)
  {
    hide NextToken, HashToken, ZeroToken, DecimalNumber, Identifier, DecodeAt, KeywordToken;
    ValueHasRune(t, i, b, id, e);
    var c := PeekAt(t, i).c;
    if c == '#' as int {
      HashStarts(t, i, b);
      HashMoves(t, i, e, u, y, id);
      HashStarts(u, y, checked);
    } else if id.BareIdentifier? {
      BareIsIdentifier(t, i, b, e);
      BareMoves(t, i, e, u, y, checked);
    } else if c == '"' as int {
      QuoteMoves(t, i, b, id, e, u, y, checked);
    } else {
      NumberMoves(t, i, b, id, e, u, y, checked);
    }
  }

  lemma ValueHasRune(t: Bytes, i: nat, b: bool, id: TokenID, e: nat)
    requires i <= |t| && NextToken(t, i, b) == Lexed(id, e, true)
    ensures i < |t| && PeekAt(t, i).Rune?
  {}
}
