// From the source to the value: what strings of each kind are read as, scanner and decoder together.
module StringValues {
  import opened Basics
  import opened Tokens
  import opened Documents
  import opened Utf8
  import opened EscapedText
  import opened Delimiters
  import opened Lexemes
  import Escapes
  import Lexer
  import Multiline
  import MultilineRows
  import MultilineText
  import RawStrings
  import Strings
  import Values

  /** The value of a decoded text. */
  predicate IsTextValue(content: Option<Content>, text: Option<Bytes>) {
    if text.Some? then content == Some(Text(text.value)) else content == None
  }

  // ----- bodies -----

  lemma {:induction false} BodyAppend(s: Bytes, i: nat, m: nat, k: nat)
    requires i <= m <= k && Body(s, i, m) && Body(s, m, k)
    ensures Body(s, i, k)
    decreases m - i
  {
    hide Unit;
    if i < m {
      var n: nat :| i < n <= m && Unit(s, i, n) && Body(s, n, m);
      BodyAppend(s, n, m, k);
    }
  }

  lemma BodyOne(s: Bytes, i: nat, m: nat)
    requires i < m && Unit(s, i, m)
    ensures Body(s, i, m)
  {
    hide Unit;
    assert Body(s, m, m);
  }

  /** Printable characters other than the quote and the backslash. */
  lemma {:induction false} PlainBody(s: Bytes, i: nat, k: nat)
    requires i <= k <= |s| && forall m :: i <= m < k ==> Strings.IsPlain(s[m])
    ensures Body(s, i, k)
    decreases k - i
  {
    hide Unit;
    if i < k {
      PlainUnit(s, i);
      PlainBody(s, i + 1, k);
    }
  }

  lemma PlainUnit(s: Bytes, i: nat)
    requires i < |s| && Strings.IsPlain(s[i])
    ensures Unit(s, i, i + 1)
  {
    AsciiDecodes(s, i);
  }

  /** The scanner can read the item, and it does not end the string. */
  predicate Scannable(item: Item) {
    match item
    case Char(r) => IsBodyRune(r) && r != RUNE_ERROR
    case Letter(r) => r != RUNE_ERROR
    case _ => true
  }

  lemma CharPeeks(r: Rune, t: Bytes, j: nat)
    requires Strings.IsScalar(r) && r != RUNE_ERROR && StandsAt(Strings.Encode(r), t, j)
    ensures j < |t| && Lexer.PeekAt(t, j) == Lexer.Rune(r, |Strings.Encode(r)|)
  {
    CharStands(r, t, j);
    hide Strings.Encode, DecodeAt;
  }

  lemma GapRuns(space: Bytes, i: nat, t: Bytes, j: nat)
    requires Occurs(space, i, t, j) && SpaceFrom(space, i)
    ensures RunTo(t, j, j + (|space| - i), IsGapRune)
    decreases |space| - i
  {
    if i < |space| {
      SpaceIsWellFormed(space, i);
      OccursNext(space, i, t, j);
      RuneClasses(DecodeAt(t, j).c);
      SpaceIsRead(t, j);
      hide DecodeAt, IsSpaceRune, IsBreakRune;
      GapRuns(space, i + DecodeAt(space, i).size, t, j + DecodeAt(space, i).size);
    }
  }

  lemma SpaceIsRead(t: Bytes, j: nat)
    requires Strings.SpaceAt(t, j)
    ensures Lexer.PeekAt(t, j) == Lexer.Rune(DecodeAt(t, j).c, DecodeAt(t, j).size)
  {}

  lemma GapIsBody(space: Bytes, t: Bytes, j: nat)
    requires Fits(Gap(space)) && StandsAt(Spell(Gap(space)), t, j) && Follows(Gap(space), t, j + 1 + |space|)
    ensures Body(t, j, j + 1 + |space|)
  {
    hide Unit, RunTo, SpaceFrom;
    GapStands(space, t, j);
    var all := Spell(Gap(space));
    StandsPart(all, t, j, 1, |all|);
    assert all[1..|all|] == space && space[0..] == space;
    GapRuns(space, 0, t, j + 1);
    NoSpaceNoGap(t, j + 1 + |space|);
    GapUnit(t, j, j + 1 + |space|);
    BodyOne(t, j, j + 1 + |space|);
  }

  lemma NoSpaceNoGap(t: Bytes, k: nat)
    requires k <= |t| && !Strings.SpaceAt(t, k)
    ensures !RuneAt(t, k, IsGapRune)
  {
    if k < |t| { RuneClasses(DecodeAt(t, k).c); }
    hide IsSpaceRune, IsBreakRune, IsWhiteSpace, IsNewline;
  }

  lemma GapUnit(t: Bytes, j: nat, m: nat)
    requires ByteAt(t, j, B) && j + 1 < m <= |t| && RunTo(t, j + 1, m, IsGapRune) && !RuneAt(t, m, IsGapRune)
    ensures Unit(t, j, m)
  {
    hide RunTo;
  }

  lemma EscapeUnit(t: Bytes, j: nat, r: Rune)
    requires ByteAt(t, j, B) && Strings.IsScalar(r) && r != RUNE_ERROR && !IsGapRune(r) && StandsAt(Strings.Encode(r), t, j + 1)
    ensures Unit(t, j, j + 1 + |Strings.Encode(r)|)
  {
    CharPeeks(r, t, j + 1);
    hide Strings.Encode, IsGapRune;
  }

  lemma CodeIsPlain(digits: seq<Escapes.Digit>, t: Bytes, j: nat)
    requires Escapes.AreDigits(digits) && StandsAt(Escapes.Escaped(digits), t, j)
    ensures forall m :: j <= m < j + |Escapes.Escaped(digits)| ==> Strings.IsPlain(t[m])
  {
    var x := Escapes.Escaped(digits);
    StandsPart(x, t, j, 0, |x|);
    forall m | j <= m < j + |x| ensures Strings.IsPlain(t[m]) { assert t[j + (m - j)] == x[m - j]; }
  }

  /** What an item is spelled as is a stretch of the body of a string. */
  lemma ItemIsBody(item: Item, t: Bytes, j: nat)
    requires Fits(item) && Scannable(item) && StandsAt(Spell(item), t, j) && Follows(item, t, j + |Spell(item)|)
    ensures Body(t, j, j + |Spell(item)|)
  {
    hide Unit, Body, Strings.Encode, IsGapRune, IsBodyRune;
    match item
    case Char(r) =>
      CharPeeks(r, t, j);
      BodyUnit(t, j);
      BodyOne(t, j, j + |Spell(item)|);
    case Letter(r) =>
      LetterStands(r, t, j);
      NoSpaceIsNoGap(r);
      EscapeUnit(t, j, r);
      BodyOne(t, j, j + |Spell(item)|);
    case Code(digits) =>
      CodeStands(digits, t, j);
      CodeIsPlain(digits, t, j + 1);
      LetterUnit(t, j);
      BodyOne(t, j, j + 2);
      PlainBody(t, j + 2, j + |Spell(item)|);
      BodyAppend(t, j, j + 2, j + |Spell(item)|);
    case Unbraced =>
      UnbracedStands(t, j);
      LetterUnit(t, j);
      BodyOne(t, j, j + 2);
    case Gap(space) => GapIsBody(space, t, j);
  }

  lemma BodyUnit(t: Bytes, j: nat)
    requires RuneAt(t, j, IsBodyRune)
    ensures Unit(t, j, j + Lexer.PeekAt(t, j).size)
  {
    hide IsBodyRune;
  }

  lemma NoSpaceIsNoGap(r: Rune)
    requires !IsSpace(r)
    ensures !IsGapRune(r)
  {
    RuneClasses(r);
  }

  lemma LetterUnit(t: Bytes, j: nat)
    requires j + 1 < |t| && t[j] == B && t[j + 1] == 'u' as int
    ensures Unit(t, j, j + 2)
  {
    AsciiDecodes(t, j + 1);
  }

  lemma {:induction false} TextIsBody(items: seq<Item>, t: Bytes, j: nat)
    requires IsText(items) && (forall k :: 0 <= k < |items| ==> Scannable(items[k])) && StandsAt(Spelled(items), t, j)
    requires items != [] ==> Follows(items[|items| - 1], t, j + |Spelled(items)|)
    ensures Body(t, j, j + |Spelled(items)|)
    decreases |items|
  {
    hide Body, Spell, Fits, FitsBefore, Follows, Scannable;
    if items == [] {
      EmptyBody(t, j);
    } else {
      SpellStands(items, t, j);
      TextFollows(items, t, j);
      ItemIsBody(items[0], t, j);
      assert forall k :: 0 <= k < |items[1..]| ==> items[1..][k] == items[k + 1];
      TextIsBody(items[1..], t, j + |Spell(items[0])|);
      BodyAppend(t, j, j + |Spell(items[0])|, j + |Spelled(items)|);
    }
  }

  lemma EmptyBody(t: Bytes, j: nat)
    ensures Body(t, j, j)
  {}

  // ----- what is read -----

  lemma {:induction false} FirstIsNoQuote(items: seq<Item>)
    requires IsText(items) && items != [] && Scannable(items[0])
    ensures Spelled(items) != [] && Spelled(items)[0] != Q
  {
    var first := Spell(items[0]);
    assert Spelled(items)[0] == first[0];
    if items[0].Char? {
      assert first[0..|first|] == first;
      CharStands(items[0].r, first, 0);
      hide Strings.Encode;
    }
  }

  lemma QuoteFollows(item: Item, t: Bytes, k: nat)
    requires ByteAt(t, k, Q)
    ensures Follows(item, t, k)
  {
    AsciiDecodes(t, k);
  }

  /**
   * Main result: a quoted string with any characters and escapes that the scanner can read is one token wherever it stands,
   * unless it is empty and a third quote follows, and its value is what its items mean; it has none if they mean nothing.
   */
  lemma QuotedIsRead(items: seq<Item>, t: Bytes, i: nat, b: bool)
    requires IsText(items) && (forall k :: 0 <= k < |items| ==> Scannable(items[k]))
    requires StandsAt([Q] + Spelled(items) + [Q], t, i) && (items == [] ==> !ByteAt(t, i + 2, Q))
    ensures var e := i + |Spelled(items)| + 2;
      && Lexer.NextToken(t, i, b) == Lexer.Lexed(QuotedString, e, true)
      && IsTextValue(Values.Meaning(Token(QuotedString, t[i..e], i)), EscapedText.Meaning(items))
  {
    hide Body, Lexer.NextToken, Strings.Unquoted, EscapedText.Meaning, Spelled, IsText;
    var x := Spelled(items);
    var all := [Q] + x + [Q];
    var e := i + |x| + 2;
    StandsPart(all, t, i, 0, |all|);
    assert t[i + 0] == all[0] && t[i + (|x| + 1)] == all[|x| + 1];
    StandsPart(all, t, i, 1, 1 + |x|);
    assert all[1..1 + |x|] == x;
    if items != [] { QuoteFollows(items[|items| - 1], t, e - 1); }
    TextIsBody(items, t, i + 1);
    if items != [] {
      FirstIsNoQuote(items);
      StandsPart(all, t, i, 1, 2);
      assert t[i + 1] == all[1] == x[0];
    } else {
      NothingSpelled();
    }
    QuotedExactly(t, i, e, b);
    assert t[i..e] == all;
    QuotedMeans(items);
  }

  lemma NothingSpelled()
    ensures Spelled([]) == []
  {}

  /** The values of strings of the other kinds, by what is between their delimiters. */
  lemma OthersMean(lines: seq<seq<Item>>, prefix: Bytes, rows: seq<Bytes>, closing: Bytes, hashes: nat, nl: Bytes, text: Bytes, offset: nat)
    requires MultilineText.AreLines(lines) && lines != [] && Multiline.BlankFrom(prefix, 0) && Multiline.IsBreak(nl)
    requires Multiline.AllLines(rows) && Multiline.LineFrom(closing, 0) && hashes > 0
    ensures var m := MultilineText.LineMeanings(lines);
      IsTextValue(Values.Meaning(Token(MultilineString, MultilineText.QuotedLiteral(lines, prefix, nl), offset)),
                  if m.Some? then Some(Multiline.JoinLines(m.value)) else None)
    ensures Values.Meaning(Token(RawString, RawStrings.Delimited(text, hashes), offset)) == Some(Text(text))
    ensures var h := Repeat('#' as int, hashes);
      var ok := Multiline.BlankFrom(closing, 0) && forall k :: 0 <= k < |rows| ==> MultilineRows.MayStand(rows[k], closing);
      IsTextValue(Values.Meaning(Token(MultilineRawString, h + Multiline.TRIPLE + (nl + MultilineRows.Written(rows, closing, nl)) + Multiline.TRIPLE + h, offset)),
                  if ok then Some(Multiline.JoinLines(MultilineRows.AllOutdented(rows, closing))) else None)
  {
    hide Multiline.QuotedText, Multiline.RawText, Multiline.JoinLines, MultilineText.LineMeanings, MultilineText.AreLines, Multiline.BlankFrom,
      Multiline.LineFrom, MultilineRows.MayStand, RawStrings.Parsed;
    MultilineText.MultilineMeans(lines, prefix, nl);
    MultilineRows.RawMeansExactly(rows, closing, hashes, nl);
    var h := Repeat(RawStrings.HASH, hashes);
    HashesAreNoQuotes(hashes);
    RawStrings.ParsedIsBetween(h, text, RawStrings.Closing(hashes));
  }

  lemma HashesAreNoQuotes(n: nat)
    ensures Strings.QUOTE !in Repeat(RawStrings.HASH, n)
  {}
}
