// Raw strings: the number of hashes chosen by the writer, and what the scanner and the value parser make of the literal.
module RawStrings {
  import opened Basics
  import opened Tokens
  import opened Utf8
  import Lexer
  import Strings

  const HASH: Byte := 0x23

  function Closing(hashes: nat): Bytes { [Strings.QUOTE] + Repeat(HASH, hashes) }

  /** text occurs in s at or after i. */
  predicate ContainsFrom(s: Bytes, text: Bytes, i: nat)
    requires i <= |s|
    decreases |s| - i
  {
    text <= s[i..] || (i < |s| && ContainsFrom(s, text, i + 1))
  }

  predicate Contains(s: Bytes, text: Bytes) { ContainsFrom(s, text, 0) }

  /** The least number of hashes, from n up to 64, whose closing delimiter does not occur in s. */
  function LeastHashes(s: Bytes, n: nat): Option<nat>
    decreases 65 - n
  {
    if n > 64 then None
    else if !Contains(s, Closing(n)) then Some(n)
    else LeastHashes(s, n + 1)
  }

  function Delimited(s: Bytes, hashes: nat): Bytes {
    Repeat(HASH, hashes) + [Strings.QUOTE] + s + Closing(hashes)
  }

  /** What is written when 64 hashes are not enough. */
  const FALLBACK: Bytes := Lexer.Chars("#\"invalid\"#")

  function Literal(s: Bytes): Bytes {
    match LeastHashes(s, 1)
    case None => FALLBACK
    case Some(n) => Delimited(s, n)
  }

  method AppendRawString(b: Bytes, s: Bytes) returns (r: Bytes)
    ensures r == b + Literal(s)
  {
    var hashes := 1;
    while true
      invariant 1 <= hashes <= 64 && LeastHashes(s, 1) == LeastHashes(s, hashes)
      decreases 65 - hashes
    {
      var closing := AppendHashes([Strings.QUOTE], hashes);
      if !Contains(s, closing) { break; }
      hashes := hashes + 1;
      if hashes > 64 {
        return b + FALLBACK;
      }
    }
    r := AppendHashes(b, hashes);
    r := r + [Strings.QUOTE];
    r := r + s;
    r := r + [Strings.QUOTE];
    r := AppendHashes(r, hashes);
    assert r == b + Delimited(s, hashes);
  }

  method AppendHashes(b: Bytes, n: nat) returns (r: Bytes)
    ensures r == b + Repeat(HASH, n)
  {
    r := b;
    assert b + [] == b;
    for i := 0 to n
      invariant r == b + Repeat(HASH, i)
    {
      RepeatSnoc(HASH, i);
      Assoc(b, Repeat(HASH, i), [HASH]);
      r := r + [HASH];
    }
  }

  lemma {:induction false} RepeatSnoc(c: Byte, n: nat)
    ensures Repeat(c, n + 1) == Repeat(c, n) + [c]
  {
    if n > 0 { RepeatSnoc(c, n - 1); }
  }

  /** parseRawString: the text between the first quote and as many bytes from the end, or all of it if there is no quote. */
  function Parsed(b: Bytes): Option<Bytes> {
    var p := FirstQuote(b, 0);
    if p == |b| then Some(b) else if p + 1 <= |b| - (p + 1) then Some(b[p + 1..|b| - (p + 1)]) else None
  }

  function FirstQuote(b: Bytes, i: nat): (p: nat)
    requires i <= |b|
    ensures i <= p <= |b| && (p < |b| ==> b[p] == Strings.QUOTE) && forall k :: i <= k < p ==> b[k] != Strings.QUOTE
    decreases |b| - i
  {
    if i < |b| && b[i] != Strings.QUOTE then FirstQuote(b, i + 1) else i
  }

  /** The text is what is between the first quote and as many bytes from the end; without room for them it cannot be cut out. */
  lemma ParsedIsBetween(front: Bytes, text: Bytes, back: Bytes)
    requires Strings.QUOTE !in front
    ensures |back| == |front| + 1 ==> Parsed(front + [Strings.QUOTE] + text + back) == Some(text)
    ensures |text| <= |front| ==> Parsed(front + [Strings.QUOTE] + text) == None
    ensures Parsed(front) == Some(front)
  {
    QuoteIsFirst(front, 0, text + back);
    QuoteIsFirst(front, 0, text);
    assert front + [Strings.QUOTE] + (text + back) == front + [Strings.QUOTE] + text + back;
    var b := front + [Strings.QUOTE] + text + back;
    if |back| == |front| + 1 { assert b[|front| + 1..|b| - (|front| + 1)] == text; }
    assert FirstQuote(front, 0) == |front|;
  }

  lemma {:induction false} QuoteIsFirst(front: Bytes, i: nat, rest: Bytes)
    requires Strings.QUOTE !in front && i <= |front|
    ensures FirstQuote(front + [Strings.QUOTE] + rest, i) == |front|
    decreases |front| - i
  {
    if i < |front| {
      assert front[i] in front;
      QuoteIsFirst(front, i + 1, rest);
    }
  }

  // ----- the hash count -----

  lemma {:induction false} ContainedAt(s: Bytes, text: Bytes, i: nat, k: nat)
    requires i <= k <= |s| && text <= s[k..]
    ensures ContainsFrom(s, text, i)
    decreases k - i
  {
    if i < k { ContainedAt(s, text, i + 1, k); }
  }

  /** The hash count is the least one that does; there is none exactly when all of 1 to 64 occur. */
  lemma {:induction false} HashesAreLeast(s: Bytes, n: nat)
    requires 1 <= n <= 65
    ensures match LeastHashes(s, n)
      case Some(m) => n <= m <= 64 && !Contains(s, Closing(m)) && forall k :: n <= k < m ==> Contains(s, Closing(k))
      case None => forall k :: n <= k <= 64 ==> Contains(s, Closing(k))
    decreases 65 - n
  {
    hide Contains;
    if n <= 64 && Contains(s, Closing(n)) { HashesAreLeast(s, n + 1); }
  }

  // ----- reading back -----

  /** Runes the scanner can read, and no newline among them. */
  predicate ReadableFrom(s: Bytes, i: nat)
    requires i <= |s|
    decreases |s| - i
  {
    i == |s| || (Lexer.PeekAt(s, i).Rune? && !IsNewline(DecodeAt(s, i).c) && ReadableFrom(s, i + DecodeAt(s, i).size))
  }

  /** The scanner would take the literal for a multi-line one. */
  predicate StartsTriple(s: Bytes) {
    |s| >= 1 && s[0] == Strings.QUOTE && (|s| == 1 || s[1] == Strings.QUOTE)
  }

  /** The hashes behind a quote at t[j] that s has at k end before s does. */
  lemma {:induction false} HashesInside(s: Bytes, k: nat, t: Bytes, j: nat, max: nat)
    requires Occurs(s, k, t, j) && j + (|s| - k) < |t| && t[j + (|s| - k)] == Strings.QUOTE
    ensures var m := Lexer.Hashes(t, j, max); k + m <= |s| && forall i :: k <= i < k + m ==> s[i] == HASH
    decreases max
  {
    if max > 0 && Lexer.At(t, j, HASH) {
      AsciiDecodes(t, j);
      if k == |s| {
        assert false;
      } else {
        assert t[j] == t[j..j + (|s| - k)][0] == s[k..][0];
        assert t[j + 1..j + (|s| - k)] == t[j..j + (|s| - k)][1..] == s[k..][1..] == s[k + 1..];
        HashesInside(s, k + 1, t, j + 1, max - 1);
      }
    }
  }

  lemma {:induction false} HashesCounted(t: Bytes, j: nat, n: nat)
    requires j + n <= |t| && forall i :: j <= i < j + n ==> t[i] == HASH
    ensures Lexer.Hashes(t, j, n) == n
    decreases n
  {
    if n > 0 {
      AsciiDecodes(t, j);
      HashesCounted(t, j + 1, n - 1);
    }
  }

  lemma OccursSkip(s: Bytes, k: nat, t: Bytes, j: nat, n: nat)
    requires Occurs(s, k, t, j) && k + n <= |s|
    ensures Occurs(s, k + n, t, j + n)
    ensures n > 0 ==> t[j] == s[k]
  {
    var m := |s| - k;
    assert t[j + n..j + m] == t[j..j + m][n..] == s[k..][n..] == s[k + n..];
    if n > 0 { assert t[j] == t[j..j + m][0] == s[k..][0]; }
  }

  /** Hashes inside a text are readable. */
  lemma {:induction false} HashesAreReadable(s: Bytes, k: nat, m: nat)
    requires k + m <= |s| && forall i :: k <= i < k + m ==> s[i] == HASH
    ensures ReadableFrom(s, k) <==> ReadableFrom(s, k + m)
    decreases m
  {
    if m > 0 {
      AsciiDecodes(s, k);
      HashesAreReadable(s, k + 1, m - 1);
    }
  }

  /** As many hashes behind a quote of s as in the closing delimiter would put that delimiter into s. */
  lemma ClosingNotInside(s: Bytes, k: nat, m: nat)
    requires k + 1 + m <= |s| && s[k] == Strings.QUOTE && (forall i :: k + 1 <= i < k + 1 + m ==> s[i] == HASH)
    ensures Contains(s, Closing(m))
  {
    var c := Closing(m);
    assert forall i :: 0 <= i < |c| ==> c[i] == s[k..][i];
    ContainedAt(s, c, 0, k);
  }

  /** The scanner stops at the closing delimiter. */
  lemma RawEnds(t: Bytes, j: nat, n: nat)
    requires StandsAt(Closing(n), t, j)
    ensures Lexer.Raw(t, j, n) == Some(j + 1 + n)
  {
    var c := Closing(n);
    assert t[j] == t[j..j + |c|][0] == Strings.QUOTE;
    AsciiDecodes(t, j);
    forall i | j + 1 <= i < j + 1 + n ensures t[i] == HASH {
      assert t[i] == t[j..j + |c|][i - j];
    }
    HashesCounted(t, j + 1, n);
  }

  lemma ClosingStarts(n: nat, t: Bytes, e: nat)
    requires StandsAt(Closing(n), t, e)
    ensures e < |t| && t[e] == Strings.QUOTE
  {
    assert t[e..e + |Closing(n)|][0] == Strings.QUOTE;
  }

  /** From inside the literal, the scanner reads to its end exactly when the rest of the text is readable. */
  lemma {:induction false} RawReads(s: Bytes, k: nat, t: Bytes, j: nat, n: nat)
    requires Occurs(s, k, t, j) && StandsAt(Closing(n), t, j + (|s| - k)) && !Contains(s, Closing(n))
    ensures Lexer.Raw(t, j, n) == if ReadableFrom(s, k) then Some(j + (|s| - k) + 1 + n) else None
    decreases |s| - k
  {
    hide Lexer.Hashes, DecodeAt, Contains, Closing, IsNewline;
    ClosingStarts(n, t, j + (|s| - k));
    if k == |s| {
      RawEnds(t, j, n);
    } else if Malformed(s, k) {
      MalformedStays(s, k, t, j);
    } else {
      OccursNext(s, k, t, j);
      OccursSkip(s, k, t, j, 1);
      AsciiDecodes(s, k);
      if s[k] == Strings.QUOTE {
        QuoteIsNoNewline();
        HashesInside(s, k + 1, t, j + 1, n);
        var m := Lexer.Hashes(t, j + 1, n);
        if m == n { ClosingNotInside(s, k, n); }
        OccursSkip(s, k, t, j, 1 + m);
        HashesAreReadable(s, k + 1, m);
        RawReads(s, k + 1 + m, t, j + 1 + m, n);
      } else {
        QuoteOnlyAscii(s, k);
        RawReads(s, k + DecodeAt(s, k).size, t, j + DecodeAt(s, k).size, n);
      }
    }
  }

  lemma QuoteIsNoNewline()
    ensures !IsNewline(Strings.QUOTE)
  {}

  lemma QuoteOnlyAscii(s: Bytes, k: nat)
    requires k < |s|
    ensures DecodeAt(s, k).c == Strings.QUOTE ==> s[k] == Strings.QUOTE
  {
    AsciiDecodes(s, k);
  }

  /** All the hashes in front of a quote are counted. */
  lemma {:induction false} HashesBeforeQuote(t: Bytes, i: nat, n: nat, max: nat)
    requires i + n < |t| && n < max && t[i + n] == Strings.QUOTE && forall k :: i <= k < i + n ==> t[k] == HASH
    ensures Lexer.Hashes(t, i, max) == n
    decreases n
  {
    AsciiDecodes(t, i);
    if n > 0 { HashesBeforeQuote(t, i + 1, n - 1, max - 1); }
  }

  lemma QuoteAt(t: Bytes, j: nat)
    requires j < |t|
    ensures Lexer.At(t, j, Strings.QUOTE) <==> t[j] == Strings.QUOTE
  {
    AsciiDecodes(t, j);
  }

  /** Where the pieces of a delimited text stand. */
  lemma DelimitedStands(s: Bytes, n: nat, t: Bytes, i: nat)
    requires StandsAt(Delimited(s, n), t, i)
    ensures i + n + 1 + |s| + 1 + n <= |t|
    ensures forall k :: i <= k < i + n ==> t[k] == HASH
    ensures t[i + n] == Strings.QUOTE
    ensures Occurs(s, 0, t, i + n + 1)
    ensures StandsAt(Closing(n), t, i + n + 1 + |s|)
  {
    var d := Delimited(s, n);
    var h := Repeat(HASH, n);
    StandsPart(d, t, i, 0, n + 1);
    assert d[n + 1..n + 1 + |s|] == s;
    StandsPart(d, t, i, n + 1, n + 1 + |s|);
    assert s[0..] == s;
    assert d[n + 1 + |s|..|d|] == Closing(n);
    StandsPart(d, t, i, n + 1 + |s|, |d|);
    assert d[n] == Strings.QUOTE && t[i + n] == d[n];
    forall k | i <= k < i + n ensures t[k] == HASH {
      assert t[i + (k - i)] == d[k - i] == h[k - i];
    }
  }

  lemma DelimitedScans(s: Bytes, n: nat, t: Bytes, i: nat)
    requires n >= 1 && StandsAt(Delimited(s, n), t, i) && !Contains(s, Closing(n))
    ensures Lexer.At(t, i, HASH)
    ensures Lexer.HashToken(t, i) == Some((RawString, i + |Delimited(s, n)|)) <==> ReadableFrom(s, 0) && !StartsTriple(s)
  {
    hide Lexer.Raw, Lexer.MultiRaw, Contains, DecodeAt, ReadableFrom, Lexer.Hashes;
    DelimitedStands(s, n, t, i);
    AsciiDecodes(t, i);
    HashesBeforeQuote(t, i, n, |t| - i);
    QuoteAt(t, i + n);
    QuoteAt(t, i + n + 1);
    QuoteAt(t, i + n + 2);
    RawReads(s, 0, t, i + n + 1, n);
    TripleStands(s, n, t, i + n + 1);
  }

  lemma TripleStands(s: Bytes, n: nat, t: Bytes, j: nat)
    requires n >= 1 && Occurs(s, 0, t, j) && StandsAt(Closing(n), t, j + |s|)
    ensures j + 1 < |t|
    ensures StartsTriple(s) <==> t[j] == Strings.QUOTE && t[j + 1] == Strings.QUOTE
  {
    var c := Closing(n);
    StandsPart(c, t, j + |s|, 0, 2);
    assert t[j + |s| + 0] == c[0] && t[j + |s| + 1] == c[1] == HASH;
    if |s| > 0 { OccursSkip(s, 0, t, j, 1); }
    if |s| > 1 { OccursSkip(s, 1, t, j + 1, 1); }
  }

  lemma DelimitedParses(s: Bytes, n: nat)
    ensures Parsed(Delimited(s, n)) == Some(s)
  {
    var d := Delimited(s, n);
    assert d[n] == Strings.QUOTE;
    assert forall k :: 0 <= k < n ==> d[k] == HASH;
    var p := FirstQuote(d, 0);
    assert p == n;
  }

  lemma FallbackParses()
    ensures Parsed(FALLBACK) == Some(Lexer.Chars("invalid"))
  {
    var p := FirstQuote(FALLBACK, 0);
    assert p == 1;
    assert FALLBACK[2..|FALLBACK| - 2] == Lexer.Chars("invalid");
  }

  lemma {:induction false} ContainsAQuote(s: Bytes, n: nat, i: nat)
    requires i <= |s| && ContainsFrom(s, Closing(n), i)
    ensures exists k :: i <= k < |s| && s[k] == Strings.QUOTE
    decreases |s| - i
  {
    if Closing(n) <= s[i..] {
      assert s[i] == s[i..][0] == Closing(n)[0];
    } else {
      ContainsAQuote(s, n, i + 1);
    }
  }

  /**
   * The raw literal of s, wherever it stands in a source, is scanned whole as one raw string and parses to s, exactly
   * when 64 hashes are enough, s can be read by the scanner and has no newline, and s with a quote behind it does not
   * start with two quotes.
   */
  lemma RawStringRoundTrip(s: Bytes, t: Bytes, i: nat)
    requires StandsAt(Literal(s), t, i)
    ensures Lexer.At(t, i, HASH)
    ensures (Lexer.HashToken(t, i) == Some((RawString, i + |Literal(s)|)) && Parsed(Literal(s)) == Some(s))
      <==> LeastHashes(s, 1).Some? && ReadableFrom(s, 0) && !StartsTriple(s)
  {
    hide Lexer.HashToken, Contains, LeastHashes, ReadableFrom, StartsTriple, Delimited, Parsed;
    HashesAreLeast(s, 1);
    match LeastHashes(s, 1)
    case Some(n) =>
      DelimitedScans(s, n, t, i);
      DelimitedParses(s, n);
    case None =>
      FallbackParses();
      FallbackIsNotTheText(s, t, i);
  }

  lemma FallbackIsNotTheText(s: Bytes, t: Bytes, i: nat)
    requires Contains(s, Closing(1)) && StandsAt(FALLBACK, t, i)
    ensures s != Lexer.Chars("invalid") && Lexer.At(t, i, HASH)
  {
    ContainsAQuote(s, 1, 0);
    var k :| 0 <= k < |s| && s[k] == Strings.QUOTE;
    assert forall m :: 0 <= m < |Lexer.Chars("invalid")| ==> Lexer.Chars("invalid")[m] != Strings.QUOTE;
    StandsPart(FALLBACK, t, i, 0, 1);
    assert t[i + 0] == FALLBACK[0];
    AsciiDecodes(t, i);
  }
}
