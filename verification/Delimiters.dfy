// Where strings end: the scanner finds exactly the end that a grammar of their bodies gives.
module Delimiters {
  import opened Basics
  import opened Tokens
  import opened Utf8
  import opened Lexer
  import opened Lexemes

  const Q: Byte := 0x22
  const B: Byte := 0x5C

  predicate IsGapRune(c: Rune) { IsSpaceRune(c) || IsBreakRune(c) }

  predicate IsBodyRune(c: Rune) { c != '"' as int && c != '\\' as int && !IsBreakRune(c) }

  lemma GapTest()
    ensures Tests(LINE_SPACE, IsGapRune)
  {
    forall n: nat, c: Rune ensures LINE_SPACE(n, c) <==> IsGapRune(c) { RuneClasses(c); }
  }

  /** The byte at i. */
  predicate ByteAt(s: Bytes, i: nat, c: Byte) { i < |s| && s[i] == c }

  // ----- quoted strings -----

  /** A character that means itself, an escape of one character, or escaped whitespace as far as it goes. */
  ghost predicate Unit(s: Bytes, i: nat, m: nat) {
    || (RuneAt(s, i, IsBodyRune) && m == i + PeekAt(s, i).size)
    || (ByteAt(s, i, B) && RuneAt(s, i + 1, c => !IsGapRune(c)) && m == i + 1 + PeekAt(s, i + 1).size)
    || (ByteAt(s, i, B) && i + 1 < m <= |s| && RunTo(s, i + 1, m, IsGapRune) && !RuneAt(s, m, IsGapRune))
  }

  ghost predicate Body(s: Bytes, i: nat, k: nat)
    decreases k - i
  {
    i == k || exists m: nat :: i < m <= k && Unit(s, i, m) && Body(s, m, k)
  }

  lemma BackslashEnd(s: Bytes, i: nat)
    requires i < |s| && s[i] == B
    ensures PeekAt(s, i) == Lexer.Rune('\\' as int, 1) && QuotedEnd(s, i, false) == QuotedEnd(s, i + 1, true)
  {
    AsciiDecodes(s, i);
  }

  lemma EscapedEnd(s: Bytes, i: nat, m: nat)
    requires i < |s|
    ensures RuneAt(s, i, c => !IsGapRune(c)) ==> QuotedEnd(s, i, true) == QuotedEnd(s, i + PeekAt(s, i).size, false)
    ensures i < m <= |s| && RunTo(s, i, m, IsGapRune) && !RuneAt(s, m, IsGapRune) ==> QuotedEnd(s, i, true) == QuotedEnd(s, m, false)
    ensures !PeekAt(s, i).Rune? ==> QuotedEnd(s, i, true) == None
  {
    if PeekAt(s, i).Rune? {
      RuneClasses(PeekAt(s, i).c);
      GapTest();
      if i < m <= |s| && RunTo(s, i, m, IsGapRune) && !RuneAt(s, m, IsGapRune) {
        var j := i + PeekAt(s, i).size;
        assert RunTo(s, j, m, IsGapRune) && j <= m;
        SkipsRun(s, j, 0, LINE_SPACE, IsGapRune, m);
        assert SkipWhile(s, j, 0, LINE_SPACE) == m;
        assert QuotedEnd(s, i, true) == QuotedEnd(s, SkipWhile(s, j, 0, LINE_SPACE), false);
      }
    }
  }

  /** Reading goes on behind a unit. */
  lemma UnitIsPassed(s: Bytes, i: nat, m: nat)
    requires Unit(s, i, m)
    ensures i < m <= |s| && QuotedEnd(s, i, false) == QuotedEnd(s, m, false)
  {
    if ByteAt(s, i, B) {
      BackslashEnd(s, i);
      if i + 1 < |s| { EscapedEnd(s, i + 1, m); }
    } else {
      RuneClasses(PeekAt(s, i).c);
    }
    hide RunTo, SkipWhile;
  }

  lemma UnitIsOne(s: Bytes, i: nat, m: nat, k: nat)
    requires Unit(s, i, m) && Unit(s, i, k)
    ensures m == k
  {
    if ByteAt(s, i, B) {
      BackslashEnd(s, i);
      if i + 1 < m <= |s| && i + 1 < k <= |s| {
        GapTest();
        SkipsRun(s, i + 1, 0, LINE_SPACE, IsGapRune, m);
        SkipsRun(s, i + 1, 0, LINE_SPACE, IsGapRune, k);
      }
    }
  }

  /** Where no unit stands, the string ends or fails. */
  lemma NoUnit(s: Bytes, i: nat) returns (m: nat)
    requires i <= |s| && !ByteAt(s, i, Q) && QuotedEnd(s, i, false).Some?
    ensures Unit(s, i, m)
  {
    if i < |s| { AsciiDecodes(s, i); }
    RuneClasses(PeekAt(s, i).c);
    if ByteAt(s, i, B) {
      BackslashEnd(s, i);
      if RuneAt(s, i + 1, IsGapRune) {
        GapTest();
        m := SkipWhile(s, i + 1, 0, LINE_SPACE);
        SkipsRun(s, i + 1, 0, LINE_SPACE, IsGapRune, m);
      } else {
        m := i + 1 + PeekAt(s, i + 1).size;
      }
    } else {
      m := i + PeekAt(s, i).size;
    }
  }

  lemma QuoteIsNoUnit(s: Bytes, i: nat, m: nat)
    requires ByteAt(s, i, Q)
    ensures !Unit(s, i, m) && QuotedEnd(s, i, false) == Some(i + 1)
  {
    AsciiDecodes(s, i);
  }

  /** Main result: a quoted string ends at the quote behind its body. */
  lemma {:induction false} QuotedEndsExactly(s: Bytes, i: nat, k: nat)
    requires i <= |s|
    ensures QuotedEnd(s, i, false) == Some(k + 1) <==> i <= k && Body(s, i, k) && ByteAt(s, k, Q)
    decreases |s| - i
  {
    hide QuotedEnd, Unit;
    if ByteAt(s, i, Q) {
      forall m: nat ensures !Unit(s, i, m) { QuoteIsNoUnit(s, i, m); }
      QuoteIsNoUnit(s, i, i);
    } else if QuotedEnd(s, i, false).Some? {
      var m := NoUnit(s, i);
      UnitIsPassed(s, i, m);
      QuotedEndsExactly(s, m, k);
      if i <= k && Body(s, i, k) && ByteAt(s, k, Q) {
        var n: nat :| i < n <= k && Unit(s, i, n) && Body(s, n, k);
        UnitIsOne(s, i, m, n);
      }
      if QuotedEnd(s, i, false) == Some(k + 1) { BodyCons(s, i, m, k); }
    } else if i <= k && Body(s, i, k) && ByteAt(s, k, Q) {
      var n: nat :| i < n <= k && Unit(s, i, n) && Body(s, n, k);
      UnitIsPassed(s, i, n);
      QuotedEndsExactly(s, n, k);
    }
  }

  lemma BodyCons(s: Bytes, i: nat, m: nat, k: nat)
    requires Unit(s, i, m) && i < m <= k && Body(s, m, k)
    ensures Body(s, i, k)
  {
    hide Unit;
  }

  // ----- multi-line quoted strings -----

  predicate Quotes(s: Bytes, i: nat, q: nat) { i + q <= |s| && forall k :: i <= k < i + q ==> s[k] == Q }

  /** Up to two quotes, and then something else, escaped or not. */
  ghost predicate MultiUnit(s: Bytes, i: nat, m: nat) {
    exists q: nat :: q <= 2 && Quotes(s, i, q) && OtherAt(s, i + q, m)
  }

  predicate OtherAt(s: Bytes, j: nat, m: nat) {
    || (RuneAt(s, j, c => c != '"' as int && c != '\\' as int) && m == j + PeekAt(s, j).size)
    || (ByteAt(s, j, B) && RuneAt(s, j + 1, c => true) && m == j + 1 + PeekAt(s, j + 1).size)
  }

  ghost predicate MultiBody(s: Bytes, i: nat, k: nat)
    decreases k - i
  {
    i == k || exists m: nat :: i < m <= k && MultiUnit(s, i, m) && MultiBody(s, m, k)
  }

  lemma {:induction false} PassesQuotes(s: Bytes, i: nat, q: nat, before: nat)
    requires Quotes(s, i, q) && before + q <= 2
    ensures MultiQuotedEnd(s, i, false, before) == MultiQuotedEnd(s, i + q, false, before + q)
    decreases q
  {
    if q > 0 {
      AsciiDecodes(s, i);
      PassesQuotes(s, i + 1, q - 1, before + 1);
    }
  }

  lemma PassesOther(s: Bytes, j: nat, m: nat, before: nat)
    requires OtherAt(s, j, m)
    ensures j < m <= |s| && MultiQuotedEnd(s, j, false, before) == MultiQuotedEnd(s, m, false, 0)
  {
    AsciiDecodes(s, j);
  }

  lemma MultiUnitIsPassed(s: Bytes, i: nat, m: nat)
    requires MultiUnit(s, i, m)
    ensures i < m <= |s| && MultiQuotedEnd(s, i, false, 0) == MultiQuotedEnd(s, m, false, 0)
  {
    hide MultiQuotedEnd, OtherAt;
    var q: nat :| q <= 2 && Quotes(s, i, q) && OtherAt(s, i + q, m);
    PassesQuotes(s, i, q, 0);
    PassesOther(s, i + q, m, q);
  }

  lemma OtherIsNoQuote(s: Bytes, j: nat, m: nat, n: nat)
    requires OtherAt(s, j, m)
    ensures !ByteAt(s, j, Q) && (OtherAt(s, j, n) ==> m == n)
  {
    AsciiDecodes(s, j);
  }

  lemma MultiUnitIsOne(s: Bytes, i: nat, m: nat, n: nat)
    requires MultiUnit(s, i, m) && MultiUnit(s, i, n)
    ensures m == n
  {
    hide OtherAt;
    var q: nat :| q <= 2 && Quotes(s, i, q) && OtherAt(s, i + q, m);
    var r: nat :| r <= 2 && Quotes(s, i, r) && OtherAt(s, i + r, n);
    OtherIsNoQuote(s, i + q, m, n);
    OtherIsNoQuote(s, i + r, n, m);
  }

  lemma ThreeQuotesEnd(s: Bytes, i: nat, m: nat)
    requires Quotes(s, i, 3)
    ensures MultiQuotedEnd(s, i, false, 0) == Some(i + 3) && !MultiUnit(s, i, m)
  {
    AsciiDecodes(s, i);
    AsciiDecodes(s, i + 1);
    AsciiDecodes(s, i + 2);
    assert MultiQuotedEnd(s, i, false, 0) == MultiQuotedEnd(s, i + 1, false, 1) == MultiQuotedEnd(s, i + 2, false, 2) == Some(i + 3);
    QuoteIsNoOther(s, i, m);
    QuoteIsNoOther(s, i + 1, m);
    QuoteIsNoOther(s, i + 2, m);
  }

  lemma QuoteIsNoOther(s: Bytes, j: nat, m: nat)
    requires ByteAt(s, j, Q)
    ensures !OtherAt(s, j, m)
  {
    AsciiDecodes(s, j);
  }

  lemma OtherIsThere(s: Bytes, j: nat, before: nat) returns (m: nat)
    requires j <= |s| && !ByteAt(s, j, Q) && MultiQuotedEnd(s, j, false, before).Some?
    ensures OtherAt(s, j, m)
  {
    AsciiDecodes(s, j);
    m := if ByteAt(s, j, B) then j + 1 + PeekAt(s, j + 1).size else j + PeekAt(s, j).size;
  }

  lemma MultiUnitIsThere(s: Bytes, i: nat) returns (m: nat)
    requires i <= |s| && !Quotes(s, i, 3) && MultiQuotedEnd(s, i, false, 0).Some?
    ensures MultiUnit(s, i, m)
  {
    hide MultiQuotedEnd, OtherAt;
    var q: nat := if !ByteAt(s, i, Q) then 0 else if !ByteAt(s, i + 1, Q) then 1 else 2;
    assert Quotes(s, i, q) && !ByteAt(s, i + q, Q);
    PassesQuotes(s, i, q, 0);
    m := OtherIsThere(s, i + q, q);
  }

  /** Main result: a multi-line string ends at the first three quotes in a row that are not escaped. */
  lemma {:induction false} MultiEndsExactly(s: Bytes, i: nat, k: nat)
    requires i <= |s|
    ensures MultiQuotedEnd(s, i, false, 0) == Some(k + 3) <==> i <= k && MultiBody(s, i, k) && Quotes(s, k, 3)
    decreases |s| - i
  {
    hide MultiQuotedEnd, MultiUnit, Quotes;
    if Quotes(s, i, 3) {
      forall m: nat ensures !MultiUnit(s, i, m) { ThreeQuotesEnd(s, i, m); }
      ThreeQuotesEnd(s, i, i);
    } else if MultiQuotedEnd(s, i, false, 0).Some? {
      var m := MultiUnitIsThere(s, i);
      MultiUnitIsPassed(s, i, m);
      MultiEndsExactly(s, m, k);
      if i <= k && MultiBody(s, i, k) && Quotes(s, k, 3) {
        var n: nat :| i < n <= k && MultiUnit(s, i, n) && MultiBody(s, n, k);
        MultiUnitIsOne(s, i, m, n);
      }
      if MultiQuotedEnd(s, i, false, 0) == Some(k + 3) { assert i < m <= k && MultiUnit(s, i, m) && MultiBody(s, m, k); }
    } else if i <= k && MultiBody(s, i, k) && Quotes(s, k, 3) {
      var n: nat :| i < n <= k && MultiUnit(s, i, n) && MultiBody(s, n, k);
      MultiUnitIsPassed(s, i, n);
      MultiEndsExactly(s, n, k);
    }
  }

  // ----- raw strings -----

  predicate HashRun(s: Bytes, i: nat, m: nat) { i <= m <= |s| && forall k :: i <= k < m ==> s[k] == '#' as int }

  lemma {:induction false} HashesAre(s: Bytes, i: nat, max: nat, m: nat)
    requires i <= |s|
    ensures i + Hashes(s, i, max) == m <==> HashRun(s, i, m) && m - i <= max && (m - i < max ==> !ByteAt(s, m, '#' as int))
    decreases max
  {
    AsciiIs(s, i, '#' as int);
    if max > 0 && ByteAt(s, i, '#' as int) { HashesAre(s, i + 1, max - 1, m); }
  }

  /** A character that is no quote, or a quote with too few hashes. */
  predicate RawUnit(s: Bytes, i: nat, m: nat, n: nat) {
    || (RuneAt(s, i, c => c != '"' as int && !IsBreakRune(c)) && m == i + PeekAt(s, i).size)
    || (ByteAt(s, i, Q) && HashRun(s, i + 1, m) && m < i + 1 + n && !ByteAt(s, m, '#' as int))
  }

  ghost predicate RawBody(s: Bytes, i: nat, k: nat, n: nat)
    decreases k - i
  {
    i == k || exists m: nat :: i < m <= k && RawUnit(s, i, m, n) && RawBody(s, m, k, n)
  }

  /** A quote and all of the hashes. */
  predicate RawCloses(s: Bytes, k: nat, n: nat) { ByteAt(s, k, Q) && HashRun(s, k + 1, k + 1 + n) }

  lemma RawStep(s: Bytes, i: nat, m: nat, n: nat)
    requires i <= |s|
    ensures RawUnit(s, i, m, n) ==> i < m <= |s| && Raw(s, i, n) == Raw(s, m, n) && !RawCloses(s, i, n)
    ensures RawCloses(s, i, n) ==> Raw(s, i, n) == Some(i + 1 + n)
  {
    if i < |s| {
      AsciiIs(s, i, '"' as int);
      if ByteAt(s, i, Q) {
        HashesAre(s, i + 1, n, m);
        HashesAre(s, i + 1, n, i + 1 + n);
      } else if PeekAt(s, i).Rune? {
        RuneClasses(PeekAt(s, i).c);
      }
    }
    hide Hashes;
  }

  lemma RawUnitIsThere(s: Bytes, i: nat, n: nat) returns (m: nat)
    requires i <= |s| && !RawCloses(s, i, n) && Raw(s, i, n).Some?
    ensures RawUnit(s, i, m, n) && forall k: nat :: RawUnit(s, i, k, n) ==> k == m
  {
    AsciiIs(s, i, '"' as int);
    RuneClasses(PeekAt(s, i).c);
    if ByteAt(s, i, Q) {
      m := i + 1 + Hashes(s, i + 1, n);
      HashesAre(s, i + 1, n, m);
      forall k: nat | RawUnit(s, i, k, n) ensures k == m { HashesAre(s, i + 1, n, k); }
    } else {
      m := i + PeekAt(s, i).size;
    }
    hide Hashes, Raw;
  }

  /** Main result: a raw string ends at the first quote with all of its hashes. */
  lemma {:induction false} RawEndsExactly(s: Bytes, i: nat, k: nat, n: nat)
    requires i <= |s|
    ensures Raw(s, i, n) == Some(k + 1 + n) <==> i <= k && RawBody(s, i, k, n) && RawCloses(s, k, n)
    decreases |s| - i
  {
    hide Raw, RawUnit, RawCloses;
    RawStep(s, i, i, n);
    if RawCloses(s, i, n) {
      forall m: nat ensures !RawUnit(s, i, m, n) { RawStep(s, i, m, n); }
    } else if Raw(s, i, n).Some? {
      var m := RawUnitIsThere(s, i, n);
      RawStep(s, i, m, n);
      RawEndsExactly(s, m, k, n);
      if Raw(s, i, n) == Some(k + 1 + n) { assert i < m <= k && RawUnit(s, i, m, n) && RawBody(s, m, k, n); }
    } else if i <= k && RawBody(s, i, k, n) && RawCloses(s, k, n) {
      var m: nat :| i < m <= k && RawUnit(s, i, m, n) && RawBody(s, m, k, n);
      RawStep(s, i, m, n);
      RawEndsExactly(s, m, k, n);
    }
  }

  // ----- multi-line raw strings -----

  predicate PlainAt(s: Bytes, j: nat, m: nat) { RuneAt(s, j, c => c != '"' as int) && m == j + PeekAt(s, j).size }

  /** Up to two quotes and then something else, or three quotes with too few hashes. */
  ghost predicate MultiRawUnit(s: Bytes, i: nat, m: nat, n: nat) {
    || (exists q: nat :: q <= 2 && Quotes(s, i, q) && PlainAt(s, i + q, m))
    || (Quotes(s, i, 3) && HashRun(s, i + 3, m) && m < i + 3 + n && !ByteAt(s, m, '#' as int))
  }

  ghost predicate MultiRawBody(s: Bytes, i: nat, k: nat, n: nat)
    decreases k - i
  {
    i == k || exists m: nat :: i < m <= k && MultiRawUnit(s, i, m, n) && MultiRawBody(s, m, k, n)
  }

  predicate MultiRawCloses(s: Bytes, k: nat, n: nat) { Quotes(s, k, 3) && HashRun(s, k + 3, k + 3 + n) }

  lemma {:induction false} RawPassesQuotes(s: Bytes, i: nat, q: nat, before: nat, n: nat)
    requires Quotes(s, i, q) && before + q <= 2
    ensures MultiRaw(s, i, before, n) == MultiRaw(s, i + q, before + q, n)
    decreases q
  {
    if q > 0 {
      AsciiDecodes(s, i);
      RawPassesQuotes(s, i + 1, q - 1, before + 1, n);
    }
  }

  lemma RawPassesPlain(s: Bytes, j: nat, m: nat, before: nat, n: nat)
    requires PlainAt(s, j, m)
    ensures j < m <= |s| && MultiRaw(s, j, before, n) == MultiRaw(s, m, 0, n) && !ByteAt(s, j, Q)
  {
    AsciiDecodes(s, j);
  }

  lemma ThreeRawQuotes(s: Bytes, i: nat, n: nat)
    requires Quotes(s, i, 3)
    ensures var h := Hashes(s, i + 3, n);
      MultiRaw(s, i, 0, n) == if h == n then Some(i + 3 + n) else MultiRaw(s, i + 3 + h, 0, n)
  {
    hide Hashes;
    AsciiDecodes(s, i);
    AsciiDecodes(s, i + 1);
    AsciiDecodes(s, i + 2);
    assert MultiRaw(s, i, 0, n) == MultiRaw(s, i + 1, 1, n) == MultiRaw(s, i + 2, 2, n);
  }

  lemma MultiRawStep(s: Bytes, i: nat, m: nat, n: nat)
    requires i <= |s|
    ensures MultiRawUnit(s, i, m, n) ==> i < m <= |s| && MultiRaw(s, i, 0, n) == MultiRaw(s, m, 0, n) && !MultiRawCloses(s, i, n)
    ensures MultiRawCloses(s, i, n) ==> MultiRaw(s, i, 0, n) == Some(i + 3 + n)
  {
    hide MultiRaw, PlainAt, Hashes;
    if Quotes(s, i, 3) {
      ThreeRawQuotes(s, i, n);
      HashesAre(s, i + 3, n, m);
      HashesAre(s, i + 3, n, i + 3 + n);
      QuoteIsNotPlain(s, i, m);
      QuoteIsNotPlain(s, i + 1, m);
      QuoteIsNotPlain(s, i + 2, m);
    } else if MultiRawUnit(s, i, m, n) {
      var q: nat :| q <= 2 && Quotes(s, i, q) && PlainAt(s, i + q, m);
      RawPassesQuotes(s, i, q, 0, n);
      RawPassesPlain(s, i + q, m, q, n);
    }
  }

  lemma QuoteIsNotPlain(s: Bytes, j: nat, m: nat)
    requires ByteAt(s, j, Q)
    ensures !PlainAt(s, j, m)
  {
    AsciiDecodes(s, j);
  }

  lemma PlainIsThere(s: Bytes, j: nat, before: nat, n: nat) returns (m: nat)
    requires j <= |s| && !ByteAt(s, j, Q) && MultiRaw(s, j, before, n).Some?
    ensures PlainAt(s, j, m)
  {
    AsciiDecodes(s, j);
    m := j + PeekAt(s, j).size;
  }

  lemma MultiRawUnitIsThere(s: Bytes, i: nat, n: nat) returns (m: nat)
    requires i <= |s| && !MultiRawCloses(s, i, n) && MultiRaw(s, i, 0, n).Some?
    ensures MultiRawUnit(s, i, m, n)
  {
    hide MultiRaw, PlainAt, Hashes;
    if Quotes(s, i, 3) {
      ThreeRawQuotes(s, i, n);
      m := i + 3 + Hashes(s, i + 3, n);
      HashesAre(s, i + 3, n, m);
    } else {
      var q: nat := if !ByteAt(s, i, Q) then 0 else if !ByteAt(s, i + 1, Q) then 1 else 2;
      assert Quotes(s, i, q) && !ByteAt(s, i + q, Q);
      RawPassesQuotes(s, i, q, 0, n);
      m := PlainIsThere(s, i + q, q, n);
    }
  }

  lemma MultiRawUnitIsOne(s: Bytes, i: nat, m: nat, k: nat, n: nat)
    requires MultiRawUnit(s, i, m, n) && MultiRawUnit(s, i, k, n)
    ensures m == k
  {
    hide PlainAt;
    if Quotes(s, i, 3) {
      QuoteIsNotPlain(s, i, m);
      QuoteIsNotPlain(s, i + 1, m);
      QuoteIsNotPlain(s, i + 2, m);
      QuoteIsNotPlain(s, i, k);
      QuoteIsNotPlain(s, i + 1, k);
      QuoteIsNotPlain(s, i + 2, k);
    } else {
      var q: nat :| q <= 2 && Quotes(s, i, q) && PlainAt(s, i + q, m);
      var r: nat :| r <= 2 && Quotes(s, i, r) && PlainAt(s, i + r, k);
      RawPassesPlain(s, i + q, m, 0, n);
      RawPassesPlain(s, i + r, k, 0, n);
      SamePlain(s, i + q, m, k);
    }
  }

  lemma SamePlain(s: Bytes, j: nat, m: nat, k: nat)
    ensures PlainAt(s, j, m) && PlainAt(s, j, k) ==> m == k
  {}

  /**
   * Main result: a multi-line raw string ends at the first three quotes with all of its hashes, quotes being counted afresh
   * behind three of them that too few hashes follow.
   */
  lemma {:induction false} MultiRawEndsExactly(s: Bytes, i: nat, k: nat, n: nat)
    requires i <= |s|
    ensures MultiRaw(s, i, 0, n) == Some(k + 3 + n) <==> i <= k && MultiRawBody(s, i, k, n) && MultiRawCloses(s, k, n)
    decreases |s| - i
  {
    hide MultiRaw, MultiRawUnit, MultiRawCloses;
    MultiRawStep(s, i, i, n);
    if MultiRawCloses(s, i, n) {
      forall m: nat ensures !MultiRawUnit(s, i, m, n) { MultiRawStep(s, i, m, n); }
    } else if MultiRaw(s, i, 0, n).Some? {
      var m := MultiRawUnitIsThere(s, i, n);
      MultiRawStep(s, i, m, n);
      MultiRawEndsExactly(s, m, k, n);
      if i <= k && MultiRawBody(s, i, k, n) && MultiRawCloses(s, k, n) {
        var j: nat :| i < j <= k && MultiRawUnit(s, i, j, n) && MultiRawBody(s, j, k, n);
        MultiRawUnitIsOne(s, i, m, j, n);
      }
      if MultiRaw(s, i, 0, n) == Some(k + 3 + n) { assert i < m <= k && MultiRawUnit(s, i, m, n) && MultiRawBody(s, m, k, n); }
    } else if i <= k && MultiRawBody(s, i, k, n) && MultiRawCloses(s, k, n) {
      var m: nat :| i < m <= k && MultiRawUnit(s, i, m, n) && MultiRawBody(s, m, k, n);
      MultiRawStep(s, i, m, n);
      MultiRawEndsExactly(s, m, k, n);
    }
  }

  // ----- strings as tokens -----

  lemma QuoteIsNext(s: Bytes, i: nat, b: bool)
    requires i < |s| && s[i] == Q
    ensures NextToken(s, i, b) == Lift(QuotedText(s, i))
  {
    AsciiDecodes(s, i);
    hide QuotedText;
  }

  lemma QuotedStarts(s: Bytes, i: nat, b: bool)
    requires i <= |s| && NextToken(s, i, b).Lexed? && (NextToken(s, i, b).id.QuotedString? || NextToken(s, i, b).id.MultilineString?)
    ensures i < |s| && s[i] == Q
  {
    Starts(s, i, b);
    AsciiDecodes(s, i);
    hide NextToken;
  }

  /** Main result: where a quoted string and a multi-line string are read, and up to where. */
  lemma QuotedExactly(s: Bytes, i: nat, e: nat, b: bool)
    requires i <= |s|
    ensures NextToken(s, i, b) == Lexed(QuotedString, e, true) <==>
      i + 2 <= e && ByteAt(s, i, Q) && !Quotes(s, i, 3) && Body(s, i + 1, e - 1) && ByteAt(s, e - 1, Q)
    ensures NextToken(s, i, b) == Lexed(MultilineString, e, true) <==>
      i + 6 <= e && Quotes(s, i, 3) && MultiBody(s, i + 3, e - 3) && Quotes(s, e - 3, 3)
  {
    hide NextToken, QuotedEnd, MultiQuotedEnd, Body, MultiBody, Quotes, DecodeAt;
    if ByteAt(s, i, Q) {
      QuoteIsNext(s, i, b);
      AsciiIs(s, i + 1, '"' as int);
      AsciiIs(s, i + 2, '"' as int);
      if e > 0 { QuotedEndsExactly(s, i + 1, e - 1); }
      QuotesFit(s, i);
      if Quotes(s, i, 3) && e >= 3 { MultiEndsExactly(s, i + 3, e - 3); }
      ThreeOrNot(s, i);
      EndsBehind(s, i);
    } else if NextToken(s, i, b).Lexed? && (NextToken(s, i, b).id.QuotedString? || NextToken(s, i, b).id.MultilineString?) {
      QuotedStarts(s, i, b);
      assert false;
    }
    QuotesQuote(s, i);
  }

  lemma ThreeOrNot(s: Bytes, i: nat)
    requires ByteAt(s, i, Q)
    ensures Quotes(s, i, 3) <==> ByteAt(s, i + 1, Q) && ByteAt(s, i + 2, Q)
  {}

  lemma EndsBehind(s: Bytes, i: nat)
    requires i < |s|
    ensures QuotedEnd(s, i + 1, false).Some? ==> i + 2 <= QuotedEnd(s, i + 1, false).value
    ensures i + 3 <= |s| && MultiQuotedEnd(s, i + 3, false, 0).Some? ==> i + 3 < MultiQuotedEnd(s, i + 3, false, 0).value
  {}

  /** How many hashes start at i. */
  predicate HashesAt(s: Bytes, i: nat, n: nat) { HashRun(s, i, i + n) && !ByteAt(s, i + n, '#' as int) }

  lemma RawIsNext(s: Bytes, i: nat, n: nat, b: bool)
    requires n > 0 && HashesAt(s, i, n) && ByteAt(s, i + n, Q)
    ensures NextToken(s, i, b) == Lift(RawText(s, i + n, n))
  {
    HashIsNext(s, i, b);
    HashesAre(s, i, |s| - i, i + n);
    AsciiIs(s, i + n, '"' as int);
    hide NextToken, Hashes, RawText;
  }

  lemma RawStarts(s: Bytes, i: nat, n: nat, b: bool)
    requires i <= |s| && HashesAt(s, i, n)
    requires NextToken(s, i, b).Lexed? && (NextToken(s, i, b).id.RawString? || NextToken(s, i, b).id.MultilineRawString?)
    ensures n > 0 && ByteAt(s, i + n, Q)
  {
    Starts(s, i, b);
    AsciiDecodes(s, i);
    HashIsNext(s, i, b);
    HashesAre(s, i, |s| - i, i + n);
    AsciiIs(s, i + n, '"' as int);
    hide NextToken, Hashes, RawText, ReadWhile;
  }

  /** Main result: where a raw string and a multi-line raw string with n hashes are read, and up to where. */
  lemma RawExactly(s: Bytes, i: nat, n: nat, e: nat, b: bool)
    requires i <= |s| && HashesAt(s, i, n)
    ensures NextToken(s, i, b) == Lexed(RawString, e, true) <==>
      && n > 0 && i + 2 * n + 2 <= e && ByteAt(s, i + n, Q) && !Quotes(s, i + n, 3)
      && RawBody(s, i + n + 1, e - (n + 1), n) && RawCloses(s, e - (n + 1), n)
    ensures NextToken(s, i, b) == Lexed(MultilineRawString, e, true) <==>
      && n > 0 && i + 2 * n + 6 <= e && Quotes(s, i + n, 3)
      && MultiRawBody(s, i + n + 3, e - (n + 3), n) && MultiRawCloses(s, e - (n + 3), n)
  {
    hide NextToken, RawBody, MultiRawBody, RawCloses, MultiRawCloses, Quotes, HashRun, RawText;
    if n > 0 && ByteAt(s, i + n, Q) {
      RawIsNext(s, i, n, b);
      RawTextIs(s, i + n, n, e);
      MultiRawTextIs(s, i + n, n, e);
    } else if NextToken(s, i, b).Lexed? && (NextToken(s, i, b).id.RawString? || NextToken(s, i, b).id.MultilineRawString?) {
      RawStarts(s, i, n, b);
      assert false;
    }
    QuotesQuote(s, i + n);
  }

  lemma QuotesFit(s: Bytes, i: nat)
    ensures Quotes(s, i, 3) ==> i + 3 <= |s|
  {}

  lemma QuotesQuote(s: Bytes, j: nat)
    ensures Quotes(s, j, 3) ==> ByteAt(s, j, Q)
  {}

  lemma RawTextIs(s: Bytes, j: nat, n: nat, e: nat)
    requires ByteAt(s, j, Q)
    ensures RawText(s, j, n) == Some((RawString, e)) <==>
      j + n + 2 <= e && !Quotes(s, j, 3) && RawBody(s, j + 1, e - (n + 1), n) && RawCloses(s, e - (n + 1), n)
  {
    hide Raw, MultiRaw, RawBody, RawCloses;
    AsciiIs(s, j + 1, '"' as int);
    AsciiIs(s, j + 2, '"' as int);
    RawEnds(s, j, n);
    if e >= n + 1 { RawEndsExactly(s, j + 1, e - (n + 1), n); }
    ThreeOrNot(s, j);
  }

  lemma MultiRawTextIs(s: Bytes, j: nat, n: nat, e: nat)
    requires ByteAt(s, j, Q)
    ensures RawText(s, j, n) == Some((MultilineRawString, e)) <==>
      j + n + 6 <= e && Quotes(s, j, 3) && MultiRawBody(s, j + 3, e - (n + 3), n) && MultiRawCloses(s, e - (n + 3), n)
  {
    hide Raw, MultiRaw, MultiRawBody, MultiRawCloses;
    AsciiIs(s, j + 1, '"' as int);
    AsciiIs(s, j + 2, '"' as int);
    RawEnds(s, j, n);
    ThreeOrNot(s, j);
    if Quotes(s, j, 3) && e >= n + 3 { MultiRawEndsExactly(s, j + 3, e - (n + 3), n); }
  }

  /** The end of a raw string lies behind its closing delimiter. */
  lemma RawEnds(s: Bytes, j: nat, n: nat)
    requires ByteAt(s, j, Q)
    ensures Raw(s, j + 1, n).Some? ==> j + n + 2 <= Raw(s, j + 1, n).value
    ensures Quotes(s, j, 3) && MultiRaw(s, j + 3, 0, n).Some? ==> j + n + 6 <= MultiRaw(s, j + 3, 0, n).value
  {
    RawIsLong(s, j + 1, n);
    if Quotes(s, j, 3) { MultiRawIsLong(s, j + 3, 0, n); }
  }

  lemma {:induction false} RawIsLong(s: Bytes, i: nat, n: nat)
    requires i <= |s|
    ensures Raw(s, i, n).Some? ==> i + n + 1 <= Raw(s, i, n).value
    decreases |s| - i
  {
    hide Hashes;
    if i < |s| && PeekAt(s, i).Rune? {
      AsciiIs(s, i, '"' as int);
      var m := i + PeekAt(s, i).size;
      if PeekAt(s, i).c == '"' as int { RawIsLong(s, m + Hashes(s, m, n), n); } else { RawIsLong(s, m, n); }
    }
  }

  lemma {:induction false} MultiRawIsLong(s: Bytes, i: nat, quotes: nat, n: nat)
    requires i <= |s|
    ensures MultiRaw(s, i, quotes, n).Some? ==> i + n + (if quotes < 3 then 3 - quotes else 1) <= MultiRaw(s, i, quotes, n).value
    decreases |s| - i
  {
    hide Hashes;
    if i < |s| && PeekAt(s, i).Rune? {
      AsciiIs(s, i, '"' as int);
      var m := i + PeekAt(s, i).size;
      if PeekAt(s, i).c != '"' as int { MultiRawIsLong(s, m, 0, n); }
      else if quotes + 1 >= 3 { MultiRawIsLong(s, m + Hashes(s, m, n), 0, n); }
      else { MultiRawIsLong(s, m, quotes + 1, n); }
    }
  }
}
