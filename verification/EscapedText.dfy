// Escaped text as a list of characters and escapes with a meaning of their own, and the decoder of single-line strings,
// which computes that meaning.
module EscapedText {
  import opened Basics
  import opened Utf8
  import opened Strings
  import opened Escapes

  /** A character, an escape of one character, a code point, the start of a code point without its brace, or escaped whitespace. */
  datatype Item = Char(r: Rune) | Letter(r: Rune) | Code(digits: seq<Digit>) | Unbraced | Gap(space: Bytes)

  predicate IsSpace(r: Rune) { IsWhiteSpace(r) || IsNewline(r) }

  /** Whitespace and newlines. */
  predicate SpaceFrom(s: Bytes, i: nat)
    requires i <= |s|
    decreases |s| - i
  {
    i == |s| || (SpaceAt(s, i) && SpaceFrom(s, i + DecodeAt(s, i).size))
  }

  predicate Fits(item: Item) {
    match item
    case Char(r) => IsScalar(r) && r != BACKSLASH
    case Letter(r) => IsScalar(r) && !IsSpace(r) && r != 'u' as int
    case Code(digits) => digits != [] && AreDigits(digits)
    case Unbraced => true
    case Gap(space) => space != [] && SpaceFrom(space, 0)
  }

  /** Escaped whitespace reaches as far as whitespace does, and a brace behind a u makes it a code point. */
  predicate FitsBefore(item: Item, rest: seq<Item>) {
    rest == [] ||
    match item
    case Gap(_) => !(rest[0].Char? && IsSpace(rest[0].r))
    case Unbraced => rest[0] != Char('{' as int)
    case _ => true
  }

  predicate IsText(items: seq<Item>) {
    items == [] || (Fits(items[0]) && FitsBefore(items[0], items[1..]) && IsText(items[1..]))
  }

  function Spell(item: Item): (b: Bytes)
    requires Fits(item)
    ensures b != []
  {
    match item
    case Char(r) => Encode(r)
    case Letter(r) => [BACKSLASH] + Encode(r)
    case Code(digits) => [BACKSLASH] + Escaped(digits)
    case Unbraced => [BACKSLASH, 'u' as int]
    case Gap(space) => [BACKSLASH] + space
  }

  function Spelled(items: seq<Item>): Bytes
    requires IsText(items)
  {
    if items == [] then [] else Spell(items[0]) + Spelled(items[1..])
  }

  function LetterMeans(r: Rune, k: nat): Option<Bytes>
    requires k <= |LETTERS|
    decreases |LETTERS| - k
  {
    if k == |LETTERS| then None else if LETTERS[k].0 as int == r then Some([LETTERS[k].1]) else LetterMeans(r, k + 1)
  }

  /** What an item stands for; None for what cannot be read. */
  function Means(item: Item): Option<Bytes>
    requires Fits(item)
  {
    match item
    case Char(r) => Some(Encode(r))
    case Letter(r) => LetterMeans(r, 0)
    case Code(digits) => if |digits| <= 6 && IsScalar(Number(digits)) then Some(Encode(Number(digits))) else None
    case Unbraced => None
    case Gap(_) => Some([])
  }

  function Meaning(items: seq<Item>): Option<Bytes>
    requires IsText(items)
  {
    if items == [] then Some([])
    else
      var first :- Means(items[0]);
      var rest :- Meaning(items[1..]);
      Some(first + rest)
  }

  // ----- what stands behind an item -----

  predicate Follows(item: Item, t: Bytes, k: nat)
    requires k <= |t|
  {
    match item
    case Gap(_) => !SpaceAt(t, k)
    case Unbraced => k < |t| ==> t[k] != '{' as int
    case _ => true
  }

  lemma CharStands(r: Rune, t: Bytes, j: nat)
    requires IsScalar(r) && StandsAt(Encode(r), t, j)
    ensures j < |t| && DecodeAt(t, j) == Decoded(r, |Encode(r)|) && !Malformed(t, j)
    ensures t[j] < 0x80 <==> r < 0x80
    ensures r < 0x80 ==> t[j] == r && Encode(r) == [r]
    ensures t[j..j + |Encode(r)|] == Encode(r)
    ensures forall k :: j <= k < j + |Encode(r)| && r >= 0x80 ==> t[k] >= 0x80
  {
    LongError(r);
    DecodesExactly(t, j, r);
    AsciiDecodes(t, j);
    if t[j] >= 0x80 { HighBytes(t, j); }
  }

  /** What the next item starts with. */
  lemma NextFollows(item: Item, rest: seq<Item>, t: Bytes, k: nat)
    requires Fits(item) && IsText(rest) && FitsBefore(item, rest) && rest != [] && StandsAt(Spell(rest[0]), t, k)
    ensures Follows(item, t, k)
  {
    var next := rest[0];
    if next.Char? {
      CharStands(next.r, t, k);
    } else {
      StandsPart(Spell(next), t, k, 0, 1);
      assert t[k + 0] == Spell(next)[0];
      AsciiDecodes(t, k);
    }
  }

  lemma SpellStands(items: seq<Item>, t: Bytes, j: nat)
    requires IsText(items) && items != [] && StandsAt(Spelled(items), t, j)
    ensures StandsAt(Spell(items[0]), t, j) && StandsAt(Spelled(items[1..]), t, j + |Spell(items[0])|)
    ensures |Spelled(items)| == |Spell(items[0])| + |Spelled(items[1..])|
  {
    var all, n := Spelled(items), |Spell(items[0])|;
    StandsPart(all, t, j, 0, n);
    assert all[0..n] == Spell(items[0]);
    StandsPart(all, t, j, n, |all|);
    assert all[n..|all|] == Spelled(items[1..]);
  }

  /** What follows an item in text, where something that may follow the text follows it. */
  lemma TextFollows(items: seq<Item>, t: Bytes, j: nat)
    requires IsText(items) && items != [] && StandsAt(Spelled(items), t, j)
    requires Follows(items[|items| - 1], t, j + |Spelled(items)|)
    ensures Follows(items[0], t, j + |Spell(items[0])|)
  {
    SpellStands(items, t, j);
    if |items| > 1 {
      NextStands(items, t, j);
      hide *;
      NextFollows(items[0], items[1..], t, j + |Spell(items[0])|);
    }
  }

  lemma NextStands(items: seq<Item>, t: Bytes, j: nat)
    requires IsText(items) && |items| > 1 && StandsAt(Spelled(items), t, j)
    ensures Fits(items[0]) && IsText(items[1..]) && FitsBefore(items[0], items[1..]) && items[1..] != [] && Fits(items[1..][0])
    ensures StandsAt(Spell(items[1..][0]), t, j + |Spell(items[0])|)
  {
    hide Spell, Fits, FitsBefore;
    SpellStands(items, t, j);
    SpellStands(items[1..], t, j + |Spell(items[0])|);
  }

  // ----- the decoder computes the meaning -----

  lemma {:induction false} SkipsGap(space: Bytes, i: nat, t: Bytes, j: nat)
    requires Occurs(space, i, t, j) && SpaceFrom(space, i) && !SpaceAt(t, j + (|space| - i))
    ensures SkipSpace(t, j) == j + (|space| - i)
    decreases |space| - i
  {
    hide DecodeAt;
    if i < |space| {
      SpaceIsWellFormed(space, i);
      OccursNext(space, i, t, j);
      var n := DecodeAt(space, i).size;
      SkipsGap(space, i + n, t, j + n);
    }
  }

  lemma SpaceIsWellFormed(s: Bytes, i: nat)
    requires SpaceAt(s, i)
    ensures !Malformed(s, i)
  {}

  lemma GapStands(space: Bytes, t: Bytes, j: nat)
    requires Fits(Gap(space)) && StandsAt(Spell(Gap(space)), t, j) && Follows(Gap(space), t, j + 1 + |space|)
    ensures j + 1 < |t| && t[j] == BACKSLASH && SpaceAt(t, j + 1) && SkipSpace(t, j + 1) == j + 1 + |space|
  {
    hide DecodeAt, IsWhiteSpace, IsNewline, SkipSpace;
    var all := Spell(Gap(space));
    StandsPart(all, t, j, 0, 1);
    assert t[j + 0] == all[0];
    StandsPart(all, t, j, 1, |all|);
    assert all[1..|all|] == space;
    assert space[0..] == space;
    SpaceIsWellFormed(space, 0);
    OccursNext(space, 0, t, j + 1);
    SkipsGap(space, 0, t, j + 1);
  }

  /** The escape of one character. */
  lemma LetterStands(r: Rune, t: Bytes, j: nat)
    requires Fits(Letter(r)) && StandsAt(Spell(Letter(r)), t, j)
    ensures j + 1 < |t| && t[j] == BACKSLASH && !SpaceAt(t, j + 1) && t[j + 1] != 'u' as int
    ensures StandsAt(Encode(r), t, j + 1) && (t[j + 1] == BACKSLASH <==> r == BACKSLASH)
    ensures EscapeAt(t, j + 1) == if LetterMeans(r, 0).Some? then Some((LetterMeans(r, 0).value, j + 1 + |Encode(r)|)) else None
  {
    var all := Spell(Letter(r));
    StandsPart(all, t, j, 0, 1);
    assert t[j + 0] == all[0];
    StandsPart(all, t, j, 1, |all|);
    assert all[1..|all|] == Encode(r);
    CharStands(r, t, j + 1);
    LetterIsDecoded(t, j + 1);
    LetterIsListed(r, 0);
    hide EscapeAt, Encode;
    if t[j + 1] >= 0x80 { NoLetter(t[j + 1]); }
  }

  lemma NoLetter(c: Byte)
    requires c >= 0x80
    ensures forall k :: 0 <= k < |LETTERS| ==> c != LETTERS[k].0 as int
  {}

  lemma {:induction false} LetterIsListed(r: Rune, k: nat)
    requires k <= |LETTERS|
    ensures LetterMeans(r, k).Some? ==> r < 0x80 && exists m :: k <= m < |LETTERS| && LETTERS[m].0 as int == r && LetterMeans(r, k) == Some([LETTERS[m].1])
    ensures LetterMeans(r, k).None? ==> forall m :: k <= m < |LETTERS| ==> LETTERS[m].0 as int != r
    decreases |LETTERS| - k
  {
    if k < |LETTERS| && LETTERS[k].0 as int != r { LetterIsListed(r, k + 1); }
  }

  /** The escape of a code point. */
  lemma CodeStands(digits: seq<Digit>, t: Bytes, j: nat)
    requires Fits(Code(digits)) && StandsAt(Spell(Code(digits)), t, j)
    ensures j + 1 < |t| && t[j] == BACKSLASH && !SpaceAt(t, j + 1) && t[j + 1] == 'u' as int
    ensures StandsAt(Escaped(digits), t, j + 1)
    ensures EscapeAt(t, j + 1) == if Means(Code(digits)).Some? then Some((Means(Code(digits)).value, j + 1 + |Escaped(digits)|)) else None
  {
    var all := Spell(Code(digits));
    StandsPart(all, t, j, 0, 1);
    assert t[j + 0] == all[0];
    StandsPart(all, t, j, 1, |all|);
    assert all[1..|all|] == Escaped(digits);
    EscapedStands(digits, t, j + 1);
    NoSpaceAt(t, j + 1);
    CodePointIsDecoded(digits, t, j + 1);
  }

  lemma UnbracedStands(t: Bytes, j: nat)
    requires StandsAt(Spell(Unbraced), t, j) && Follows(Unbraced, t, j + 2)
    ensures j + 1 < |t| && t[j] == BACKSLASH && t[j + 1] == 'u' as int && !SpaceAt(t, j + 1) && EscapeAt(t, j + 1) == None
  {
    StandsPart(Spell(Unbraced), t, j, 0, 2);
    assert t[j + 0] == BACKSLASH && t[j + 1] == 'u' as int;
    NoSpaceAt(t, j + 1);
  }

  /** Decoding one item. */
  lemma ItemUnescapes(item: Item, t: Bytes, j: nat)
    requires Fits(item) && StandsAt(Spell(item), t, j) && Follows(item, t, j + |Spell(item)|)
    ensures UnescapeFrom(t, j) == if Means(item).None? then None else After(Means(item).value, UnescapeFrom(t, j + |Spell(item)|))
  {
    hide EscapeAt, DecodeAt, Encode, Escaped, SpaceAt, SkipSpace, LetterMeans;
    match item
    case Char(r) => CharStands(r, t, j);
    case Letter(r) => LetterStands(r, t, j);
    case Code(digits) => CodeStands(digits, t, j);
    case Unbraced => UnbracedStands(t, j);
    case Gap(space) =>
      GapStands(space, t, j);
      AfterIsNothing(UnescapeFrom(t, j + 1 + |space|));
  }

  lemma AfterIsNothing(rest: Option<Bytes>)
    ensures After([], rest) == rest
  {
    if rest.Some? { assert [] + rest.value == rest.value; }
  }

  lemma {:induction false} TextUnescapes(items: seq<Item>, t: Bytes, j: nat)
    requires IsText(items) && StandsAt(Spelled(items), t, j) && j + |Spelled(items)| == |t|
    ensures UnescapeFrom(t, j) == Meaning(items)
    decreases |items|
  {
    hide UnescapeFrom, Means, Spell, Fits, FitsBefore;
    if items == [] {
      AtEndOfBody(t, j);
    } else {
      SpellStands(items, t, j);
      EndFollows(items[|items| - 1], t);
      TextFollows(items, t, j);
      ItemUnescapes(items[0], t, j);
      TextUnescapes(items[1..], t, j + |Spell(items[0])|);
    }
  }

  lemma EndFollows(item: Item, t: Bytes)
    ensures Follows(item, t, |t|)
  {}

  /** Main result: what a quoted string with any escapes means, whatever is written between its quotes. */
  lemma QuotedMeans(items: seq<Item>)
    requires IsText(items)
    ensures Unquoted([QUOTE] + Spelled(items) + [QUOTE]) == Meaning(items)
  {
    hide UnescapeFrom, Meaning;
    var body := Spelled(items);
    var t := [QUOTE] + body + [QUOTE];
    assert t[1..|t| - 1] == body && body[0..|body|] == body;
    TextUnescapes(items, body, 0);
  }

  // ----- what is not text -----

  /** Anything but nothing is refused without a quote at both ends; nothing stands for itself. */
  lemma QuotesAreNeeded(t: Bytes)
    ensures Unquoted([]) == Some([])
    ensures t != [] && (|t| == 1 || t[0] != '"' as int || t[|t| - 1] != '"' as int) ==> Unquoted(t) == None
  {}

  /** The characters of a backslash, the letter u and the four digits of U+FFFD. */
  function ReplacementText(): Bytes { ['\\' as int, 'u' as int, 'f' as int, 'f' as int, 'f' as int, 'd' as int] }

  /**
   * A malformed byte: the writer spells the replacement character out without braces, so that the text does not read back; the
   * one-pass decoder yields the same six characters; the second pass of multi-line strings yields the replacement character, and
   * takes the byte behind it as it is, even a backslash that starts an escape.
   */
  lemma MalformedIsReplaced(s: Bytes, i: nat)
    requires i < |s| && Malformed(s, i)
    ensures EscapeFrom(s, i) == ReplacementText() + EscapeFrom(s, i + 1)
    ensures UnescapeFrom(s, i) == After(ReplacementText(), UnescapeFrom(s, i + 1))
    ensures i + 1 < |s| ==> ResolveFrom(s, i) == After(Encode(0xFFFD) + [s[i + 1]], ResolveFrom(s, i + 2))
    ensures i + 1 == |s| ==> ResolveFrom(s, i) == Some(Encode(0xFFFD))
    ensures Unquoted([QUOTE] + ReplacementText() + [QUOTE]) == None
  {
    AsciiDecodes(s, i);
    assert Encode(0xFFFD) == [0xEF, 0xBF, 0xBD];
    if i + 1 < |s| { assert Encode(0xFFFD) + [s[i + 1]] == [0xEF, 0xBF, 0xBD, s[i + 1]]; }
    assert ReplacementText() == UNREADABLE;
    var t := [QUOTE] + ReplacementText() + [QUOTE];
    var body := t[1..|t| - 1];
    assert body == ReplacementText();
    NoBrace(body, 1);
    NoSpaceAt(body, 1);
    hide EscapeAt, DecodeAt, SpaceAt;
  }
}
