// Multi-line strings with escapes: line by line they mean what single-line strings mean, escaped whitespace joins lines
// before their indentation is removed, and written lines read back.
module MultilineText {
  import opened Basics
  import opened Utf8
  import opened Strings
  import opened Multiline
  import opened EscapedText
  import opened Escapes

  function WithoutGaps(items: seq<Item>): seq<Item> {
    if items == [] then [] else (if items[0].Gap? then [] else [items[0]]) + WithoutGaps(items[1..])
  }

  /** A line of items without a newline of its own. Escaped whitespace, which may hold newlines, does not end it. */
  predicate IsLine(items: seq<Item>) {
    && IsText(items) && IsText(WithoutGaps(items))
    && (forall k :: 0 <= k < |items| && items[k].Char? ==> !IsNewline(items[k].r))
    && (items != [] ==> !items[|items| - 1].Gap?)
  }

  predicate AreLines(lines: seq<seq<Item>>) { forall k :: 0 <= k < |lines| ==> IsLine(lines[k]) }

  function SpelledLines(lines: seq<seq<Item>>): (r: seq<Bytes>)
    requires AreLines(lines)
    ensures |r| == |lines|
  {
    if lines == [] then []
    else
      assert forall k :: 0 <= k < |lines[1..]| ==> lines[1..][k] == lines[k + 1];
      [Spelled(lines[0])] + SpelledLines(lines[1..])
  }

  /** The lines between triple quotes, each indented. */
  function QuotedLiteral(lines: seq<seq<Item>>, prefix: Bytes, nl: Bytes): Bytes
    requires AreLines(lines)
  {
    TRIPLE + nl + Indented(SpelledLines(lines), prefix, nl) + TRIPLE
  }

  /** Nothing but whitespace, written as itself. */
  predicate IsBlankLine(items: seq<Item>) { forall k :: 0 <= k < |items| ==> items[k].Char? && IsWhiteSpace(items[k].r) }

  /** What the lines mean: each what it means between single quotes, but nothing if it is blank. */
  function LineMeanings(lines: seq<seq<Item>>): Option<seq<Bytes>>
    requires AreLines(lines)
  {
    if lines == [] then Some([])
    else
      var first :- if IsBlankLine(lines[0]) then Some([]) else Meaning(lines[0]);
      assert forall k :: 0 <= k < |lines[1..]| ==> lines[1..][k] == lines[k + 1];
      var rest :- LineMeanings(lines[1..]);
      Some([first] + rest)
  }

  // ----- normalizing newlines -----

  function Normal(item: Item): Item {
    if item.Gap? then Gap(NormalizeFrom(item.space, 0)) else item
  }

  function Normals(items: seq<Item>): (r: seq<Item>)
    ensures |r| == |items|
  {
    if items == [] then [] else [Normal(items[0])] + Normals(items[1..])
  }

  lemma {:induction false} SpaceShift(x: Bytes, i: nat, t: Bytes, j: nat)
    requires Occurs(x, i, t, j) && j + (|x| - i) == |t| && SpaceFrom(x, i)
    ensures SpaceFrom(t, j)
    decreases |x| - i
  {
    hide DecodeAt;
    if i < |x| {
      SpaceIsWellFormed(x, i);
      OccursNext(x, i, t, j);
      SpaceShift(x, i + DecodeAt(x, i).size, t, j + DecodeAt(x, i).size);
    }
  }

  /** A rune of whitespace in front of whitespace. */
  lemma SpaceCons(piece: Bytes, rest: Bytes)
    requires piece != [] && SpaceAt(piece, 0) && DecodeAt(piece, 0).size == |piece| && SpaceFrom(rest, 0)
    ensures SpaceFrom(piece + rest, 0)
  {
    var t := piece + rest;
    SpaceIsWellFormed(piece, 0);
    assert t[0..|piece|] == piece[0..|piece|];
    DecodeLocal(piece, 0, t, 0);
    assert rest[0..] == rest && t[|piece|..|piece| + |rest|] == rest;
    hide DecodeAt;
    SpaceShift(rest, 0, t, |piece|);
  }

  /** How far normalization goes in one step. */
  function Hop(s: Bytes, i: nat): (n: nat)
    requires i < |s|
    ensures 0 < n <= |s| - i
  {
    if NewlineAt(s, i) > 0 then NewlineAt(s, i) else DecodeAt(s, i).size
  }

  lemma {:induction false} SpaceHop(s: Bytes, i: nat)
    requires i < |s| && SpaceFrom(s, i)
    ensures SpaceFrom(s, i + Hop(s, i))
    ensures NormalizeFrom(s, i) == (if NewlineAt(s, i) > 0 then [LF] else s[i..i + Hop(s, i)]) + NormalizeFrom(s, i + Hop(s, i))
  {
    SpaceIsWellFormed(s, i);
    var n := DecodeAt(s, i).size;
    if NewlineAt(s, i) == 2 && n == 1 {
      AsciiDecodes(s, i + 1);
    } else if NewlineAt(s, i) == 0 {
      Trailing(s, i);
      forall m | i <= m < i + n ensures NewlineAt(s, m) == 0 { NoNewlineInside(s, m); }
      hide NewlineAt;
      NormalizeCopies(s, i, i + n);
    }
  }

  lemma {:induction false} NormalSpace(s: Bytes, i: nat)
    requires i <= |s| && SpaceFrom(s, i)
    ensures SpaceFrom(NormalizeFrom(s, i), 0) && (i < |s| ==> NormalizeFrom(s, i) != [])
    decreases |s| - i
  {
    hide NewlineAt, SpaceFrom, NormalizeFrom;
    if i < |s| {
      SpaceHop(s, i);
      NormalSpace(s, i + Hop(s, i));
      FirstSpace(s, i);
      SpaceCons(if NewlineAt(s, i) > 0 then [LF] else s[i..i + Hop(s, i)], NormalizeFrom(s, i + Hop(s, i)));
    } else {
      NormalizedEnd(s);
      EmptyIsSpace();
    }
  }

  lemma EmptyIsSpace()
    ensures SpaceFrom([], 0)
  {}

  lemma FirstSpace(s: Bytes, i: nat)
    requires i < |s| && SpaceFrom(s, i)
    ensures var piece := if NewlineAt(s, i) > 0 then [LF] else s[i..i + Hop(s, i)];
      piece != [] && SpaceAt(piece, 0) && DecodeAt(piece, 0).size == |piece|
  {
    SpaceIsWellFormed(s, i);
    if NewlineAt(s, i) == 0 {
      var n := DecodeAt(s, i).size;
      var piece := s[i..i + n];
      assert piece[0..n] == s[i..i + n];
      DecodeLocal(s, i, piece, 0);
    } else {
      AsciiDecodes([LF], 0);
    }
  }

  lemma {:induction false} GapNormalizes(x: Bytes, i: nat, t: Bytes, j: nat)
    requires Occurs(x, i, t, j) && SpaceFrom(x, i) && !SpaceAt(t, j + (|x| - i))
    ensures NormalizeFrom(t, j) == NormalizeFrom(x, i) + NormalizeFrom(t, j + (|x| - i))
    decreases |x| - i
  {
    hide NewlineAt, SpaceFrom, NormalizeFrom, SpaceAt;
    if i < |x| {
      var n := Hop(x, i);
      SpaceHop(x, i);
      SameHop(x, i, t, j);
      GapNormalizes(x, i + n, t, j + n);
      Assoc(if NewlineAt(x, i) > 0 then [LF] else x[i..i + n], NormalizeFrom(x, i + n), NormalizeFrom(t, j + (|x| - i)));
    } else {
      NormalizedEnd(x);
      assert [] + NormalizeFrom(t, j) == NormalizeFrom(t, j);
    }
  }

  /** Normalizing hops in t as it does in the whitespace x that occurs there. */
  lemma SameHop(x: Bytes, i: nat, t: Bytes, j: nat)
    requires Occurs(x, i, t, j) && i < |x| && SpaceFrom(x, i) && !SpaceAt(t, j + (|x| - i))
    ensures Occurs(x, i + Hop(x, i), t, j + Hop(x, i))
    ensures NormalizeFrom(t, j) == (if NewlineAt(x, i) > 0 then [LF] else x[i..i + Hop(x, i)]) + NormalizeFrom(t, j + Hop(x, i))
  {
    var n := Hop(x, i);
    SpaceIsWellFormed(x, i);
    OccursNext(x, i, t, j);
    SameNewline(x, i, t, j);
    OccursBeyond(x, i, t, j, n);
    hide DecodeAt, SpaceAt, NewlineAt;
    if NewlineAt(x, i) == 0 {
      forall k | j <= k < j + n ensures NewlineAt(t, k) == 0 { NoNewlineInside(t, k); }
      NormalizeCopies(t, j, j + n);
    } else {
      NormalizeBreaks(t, j);
    }
  }

  lemma OccursBeyond(x: Bytes, i: nat, t: Bytes, j: nat, n: nat)
    requires Occurs(x, i, t, j) && n <= |x| - i
    ensures Occurs(x, i + n, t, j + n) && t[j..j + n] == x[i..i + n]
  {
    var m := |x| - i;
    assert t[j + n..j + m] == t[j..j + m][n..] == x[i..][n..] == x[i + n..];
    assert t[j..j + n] == t[j..j + m][..n] == x[i..][..n] == x[i..i + n];
  }

  lemma NormalizeBreaks(t: Bytes, j: nat)
    requires j < |t| && NewlineAt(t, j) > 0
    ensures NormalizeFrom(t, j) == [LF] + NormalizeFrom(t, j + NewlineAt(t, j))
  {}

  lemma SameNewline(x: Bytes, i: nat, t: Bytes, j: nat)
    requires Occurs(x, i, t, j) && i < |x| && SpaceFrom(x, i) && !SpaceAt(t, j + (|x| - i))
    ensures NewlineAt(t, j) == NewlineAt(x, i)
  {
    var m := |x| - i;
    SpaceIsWellFormed(x, i);
    OccursNext(x, i, t, j);
    assert t[j + 0] == t[j..j + m][0] == x[i..][0] == x[i + 0];
    assert m > 1 ==> t[j + 1] == t[j..j + m][1] == x[i..][1] == x[i + 1];
    if m == 1 && j + 1 < |t| {
      AsciiDecodes(t, j + 1);
    }
    hide DecodeAt, SpaceAt;
  }

  // ----- normalizing lines -----

  lemma {:induction false} PrintableIsLine(s: Bytes, i: nat)
    requires i <= |s| && forall k :: i <= k < |s| ==> 0x20 <= s[k] < 0x7F
    ensures LineFrom(s, i)
    decreases |s| - i
  {
    if i < |s| {
      AsciiDecodes(s, i);
      PrintableIsLine(s, i + 1);
    }
  }

  lemma CharIsLine(r: Rune)
    requires IsScalar(r) && !IsNewline(r)
    ensures LineFrom(Encode(r), 0)
  {
    assert Encode(r)[0..|Encode(r)|] == Encode(r);
    CharStands(r, Encode(r), 0);
    hide Encode, DecodeAt;
  }

  lemma LineCons(b: Byte, s: Bytes)
    requires 0x20 <= b < 0x7F && LineFrom(s, 0)
    ensures LineFrom([b] + s, 0)
  {
    AsciiDecodes([b] + s, 0);
    assert s[0..] == s && ([b] + s)[1..1 + |s|] == s;
    LineShift(s, 0, [b] + s, 1);
  }

  lemma {:induction false} LineShift(x: Bytes, i: nat, t: Bytes, j: nat)
    requires Occurs(x, i, t, j) && LineFrom(x, i) && (j + (|x| - i) <= |t| && LineFrom(t, j + (|x| - i)))
    ensures LineFrom(t, j)
    decreases |x| - i
  {
    hide DecodeAt;
    if i < |x| {
      OccursNext(x, i, t, j);
      StaysWellFormed(x, i, t, j);
      LineShift(x, i + DecodeAt(x, i).size, t, j + DecodeAt(x, i).size);
    }
  }

  lemma StaysWellFormed(x: Bytes, i: nat, t: Bytes, j: nat)
    requires i < |x| && j < |t| && !Malformed(x, i) && DecodeAt(t, j) == DecodeAt(x, i)
    ensures !Malformed(t, j)
  {}

  lemma ItemIsLine(item: Item)
    requires Fits(item) && !item.Gap? && (item.Char? ==> !IsNewline(item.r))
    ensures LineFrom(Spell(item), 0)
  {
    hide LineFrom, Encode;
    match item
    case Char(r) => CharIsLine(r);
    case Letter(r) =>
      CharIsLine(r);
      LineCons(BACKSLASH, Encode(r));
    case Code(digits) => PrintableIsLine(Spell(item), 0);
    case Unbraced => PrintableIsLine(Spell(item), 0);
  }

  /** Text without a newline and without gaps is a line. */
  lemma {:induction false} TextIsLine(items: seq<Item>)
    requires IsText(items) && forall k :: 0 <= k < |items| ==> !items[k].Gap? && (items[k].Char? ==> !IsNewline(items[k].r))
    ensures LineFrom(Spelled(items), 0)
  {
    hide LineFrom, Spell, Fits, FitsBefore;
    if items == [] {
      PrintableIsLine([], 0);
    } else {
      var first, rest, t := Spell(items[0]), Spelled(items[1..]), Spelled(items);
      assert forall k :: 0 <= k < |items[1..]| ==> items[1..][k] == items[k + 1];
      TextIsLine(items[1..]);
      ItemIsLine(items[0]);
      assert t[0..|first|] == first && first[0..] == first && rest[0..] == rest && t[|first|..|first| + |rest|] == rest;
      PrintableIsLine(t, |t|);
      LineShift(rest, 0, t, |first|);
      LineShift(first, 0, t, 0);
    }
  }

  lemma ItemNormalizes(item: Item, t: Bytes, j: nat)
    requires Fits(item) && (item.Char? ==> !IsNewline(item.r))
    requires StandsAt(Spell(item), t, j) && Follows(item, t, j + |Spell(item)|)
    ensures Fits(Normal(item))
    ensures NormalizeFrom(t, j) == Spell(Normal(item)) + NormalizeFrom(t, j + |Spell(item)|)
  {
    hide LineFrom, NormalizeFrom, SpaceFrom, SpaceAt, Encode;
    if item.Gap? {
      var x := item.space;
      NormalSpace(x, 0);
      StandsPart(Spell(item), t, j, 0, 1);
      assert t[j + 0] == BACKSLASH;
      StandsPart(Spell(item), t, j, 1, |Spell(item)|);
      assert Spell(item)[1..|Spell(item)|] == x && x[0..] == x;
      GapNormalizes(x, 0, t, j + 1);
      BackslashStays(t, j);
      Assoc([BACKSLASH], NormalizeFrom(x, 0), NormalizeFrom(t, j + 1 + |x|));
    } else {
      ItemIsLine(item);
      LineIsCopied(Spell(item), t, j);
    }
  }

  lemma BackslashStays(t: Bytes, j: nat)
    requires j < |t| && t[j] == BACKSLASH
    ensures NormalizeFrom(t, j) == [BACKSLASH] + NormalizeFrom(t, j + 1)
  {
    AsciiDecodes(t, j);
  }

  lemma FitsBeforeNormals(item: Item, rest: seq<Item>)
    requires FitsBefore(item, rest)
    ensures FitsBefore(Normal(item), Normals(rest))
  {}

  lemma {:induction false} TextNormalizes(items: seq<Item>, t: Bytes, j: nat)
    requires IsText(items) && forall k :: 0 <= k < |items| && items[k].Char? ==> !IsNewline(items[k].r)
    requires StandsAt(Spelled(items), t, j) && (items != [] ==> Follows(items[|items| - 1], t, j + |Spelled(items)|))
    ensures IsText(Normals(items))
    ensures NormalizeFrom(t, j) == Spelled(Normals(items)) + NormalizeFrom(t, j + |Spelled(items)|)
    decreases |items|
  {
    hide NormalizeFrom, Spell, Fits, FitsBefore, Follows, Normal;
    if items != [] {
      SpellStands(items, t, j);
      TextFollows(items, t, j);
      ItemNormalizes(items[0], t, j);
      var rest := items[1..];
      assert forall k :: 0 <= k < |rest| ==> rest[k] == items[k + 1];
      TextNormalizes(rest, t, j + |Spell(items[0])|);
      FitsBeforeNormals(items[0], rest);
      assert Normals(items)[1..] == Normals(rest);
      Assoc(Spell(Normal(items[0])), Spelled(Normals(rest)), NormalizeFrom(t, j + |Spelled(items)|));
    } else {
      assert [] + NormalizeFrom(t, j) == NormalizeFrom(t, j);
    }
  }

  function NormalLines(lines: seq<seq<Item>>): (r: seq<seq<Item>>)
    ensures |r| == |lines|
  {
    if lines == [] then [] else [Normals(lines[0])] + NormalLines(lines[1..])
  }

  lemma {:induction false} NormalsAreText(items: seq<Item>)
    requires IsText(items)
    ensures IsText(Normals(items)) && WithoutGaps(Normals(items)) == WithoutGaps(items)
    ensures forall k :: 0 <= k < |items| ==> Normals(items)[k] == Normal(items[k])
  {
    hide FitsBefore, SpaceFrom, NormalizeFrom;
    if items != [] {
      var rest := items[1..];
      NormalsAreText(rest);
      FitsBeforeNormals(items[0], rest);
      if items[0].Gap? { NormalSpace(items[0].space, 0); }
      assert Normals(items)[1..] == Normals(rest);
      assert forall k :: 0 <= k < |rest| ==> rest[k] == items[k + 1];
    }
  }

  lemma NormalsAreLine(items: seq<Item>)
    requires IsLine(items)
    ensures IsLine(Normals(items)) && WithoutGaps(Normals(items)) == WithoutGaps(items)
  {
    NormalsAreText(items);
  }

  lemma RestAreLines(lines: seq<seq<Item>>)
    requires AreLines(lines) && lines != []
    ensures IsLine(lines[0]) && AreLines(lines[1..])
  {
    assert forall k :: 0 <= k < |lines[1..]| ==> lines[1..][k] == lines[k + 1];
  }

  lemma ConsAreLines(first: seq<Item>, rest: seq<seq<Item>>)
    requires IsLine(first) && AreLines(rest)
    ensures AreLines([first] + rest)
  {}

  lemma {:induction false} NormalLinesAreLines(lines: seq<seq<Item>>)
    requires AreLines(lines)
    ensures AreLines(NormalLines(lines))
  {
    hide IsLine;
    if lines != [] {
      RestAreLines(lines);
      NormalLinesAreLines(lines[1..]);
      NormalsAreLine(lines[0]);
      ConsAreLines(Normals(lines[0]), NormalLines(lines[1..]));
    }
  }

  /** In front of a newline, or of the end, a line is complete. */
  lemma LineEndFollows(items: seq<Item>, t: Bytes, k: nat)
    requires IsLine(items) && items != [] && k <= |t| && (k < |t| ==> t[k] == LF || t[k] == 0x0D)
    ensures Follows(items[|items| - 1], t, k)
  {}

  /** Normalization turns the indented lines into rows joined by LF. */
  lemma {:induction false} LinesNormalize(lines: seq<seq<Item>>, prefix: Bytes, nl: Bytes, t: Bytes, j: nat)
    requires AreLines(lines) && BlankFrom(prefix, 0) && IsBreak(nl)
    requires j <= |t| && t[j..] == Indented(SpelledLines(lines), prefix, nl)
    ensures AreLines(NormalLines(lines))
    ensures NormalizeFrom(t, j) == JoinLines(Rows(SpelledLines(NormalLines(lines)), prefix) + [prefix])
    decreases |lines|
  {
    hide NewlineAt, NormalizeFrom, BlankFrom, LineFrom, IsText, Spelled, Follows;
    NormalLinesAreLines(lines);
    BlankIsLine(prefix, 0);
    if lines == [] {
      assert prefix + [] == prefix;
      Behind(prefix, t, j, []);
      LineIsCopied(prefix, t, j);
      NormalizedEnd(t);
      assert Rows(SpelledLines(NormalLines(lines)), prefix) + [prefix] == [prefix];
    } else {
      RestAreLines(lines);
      var items := lines[0];
      var line, rest := Spelled(items), Indented(SpelledLines(lines[1..]), prefix, nl);
      IndentedRowStands(prefix, line, nl, rest, t, j);
      var j1, j2 := j + |prefix|, j + |prefix| + |line|;
      LineIsCopied(prefix, t, j);
      if items != [] { LineEndFollows(items, t, j2); }
      TextNormalizes(items, t, j1);
      BreakBecomesLF(nl, t, j2);
      LinesNormalize(lines[1..], prefix, nl, t, j2 + |nl|);
      var normal, more := Spelled(Normals(items)), SpelledLines(NormalLines(lines[1..]));
      NormalsAreLine(items);
      SpelledCons(Normals(items), NormalLines(lines[1..]));
      RowsCons(normal, more, prefix);
      Reassociate(prefix, normal, JoinLines(Rows(more, prefix) + [prefix]));
    }
  }

  lemma IndentedRowStands(prefix: Bytes, line: Bytes, nl: Bytes, rest: Bytes, t: Bytes, j: nat)
    requires IsBreak(nl) && j <= |t| && t[j..] == prefix + line + nl + rest
    ensures j + |prefix| <= |t| && t[j..j + |prefix|] == prefix
    ensures var j1 := j + |prefix|; var j2 := j1 + |line|;
      && j2 + |nl| <= |t| && t[j1..j2] == line && t[j2..j2 + |nl|] == nl && t[j2 + |nl|..] == rest
      && (t[j2] == LF || t[j2] == 0x0D)
  {
    Assoc(prefix, line, nl);
    Assoc(prefix, line + nl, rest);
    Behind(prefix, t, j, line + nl + rest);
    var j1 := j + |prefix|;
    Assoc(line, nl, rest);
    Behind(line, t, j1, nl + rest);
    var j2 := j1 + |line|;
    Behind(nl, t, j2, rest);
    assert t[j2] == t[j2..j2 + |nl|][0] == nl[0];
  }

  lemma SpelledCons(first: seq<Item>, rest: seq<seq<Item>>)
    requires IsLine(first) && AreLines(rest)
    ensures AreLines([first] + rest) && SpelledLines([first] + rest) == [Spelled(first)] + SpelledLines(rest)
  {
    assert ([first] + rest)[1..] == rest;
  }

  // ----- joining -----

  /** The first pass drops escaped whitespace and keeps everything else. */
  lemma ItemJoins(item: Item, t: Bytes, j: nat)
    requires Fits(item) && StandsAt(Spell(item), t, j) && Follows(item, t, j + |Spell(item)|)
    ensures JoinFrom(t, j) == (if item.Gap? then [] else Spell(item)) + JoinFrom(t, j + |Spell(item)|)
  {
    var k := j + |Spell(item)|;
    if item.Char? {
      CharStands(item.r, t, j);
      hide JoinFrom, DecodeAt, Encode;
      JoinCopies(t, j, k);
    } else if item.Gap? {
      GapStands(item.space, t, j);
      JoinSkips(t, j);
      hide JoinFrom, SpaceAt, SkipSpace;
      assert [] + JoinFrom(t, k) == JoinFrom(t, k);
    } else {
      EscapeJoins(item, t, j);
    }
  }

  lemma EscapeJoins(item: Item, t: Bytes, j: nat)
    requires Fits(item) && !item.Char? && !item.Gap? && StandsAt(Spell(item), t, j) && Follows(item, t, j + |Spell(item)|)
    ensures JoinFrom(t, j) == Spell(item) + JoinFrom(t, j + |Spell(item)|)
  {
    hide JoinFrom, Encode, Escaped, StandsAt;
    match item
    case Letter(r) => LetterJoins(r, t, j);
    case Code(digits) => CodeJoins(digits, t, j);
    case Unbraced =>
      UnbracedStands(t, j);
      assert t[j + 1..j + 2] == ['u' as int];
      BackslashJoins(t, j, j + 2, ['u' as int]);
  }

  lemma LetterJoins(r: Rune, t: Bytes, j: nat)
    requires Fits(Letter(r)) && StandsAt(Spell(Letter(r)), t, j)
    ensures JoinFrom(t, j) == [BACKSLASH] + Encode(r) + JoinFrom(t, j + 1 + |Encode(r)|)
  {
    hide JoinFrom, Encode, EscapeAt, SpaceAt, DecodeAt, Without, Spell;
    LetterIsThere(r, t, j);
    if r == BACKSLASH {
      BackslashIsOne();
      JoinBackslash(t, j);
    } else {
      BackslashJoins(t, j, j + 1 + |Encode(r)|, Encode(r));
    }
  }

  lemma BackslashIsOne()
    ensures Encode(BACKSLASH) == [BACKSLASH]
  {}

  /** The letter of an escape holds no backslash, unless it is one. */
  lemma LetterIsThere(r: Rune, t: Bytes, j: nat)
    requires Fits(Letter(r)) && StandsAt(Spell(Letter(r)), t, j)
    ensures var k := j + 1 + |Encode(r)|;
      && j + 1 < k <= |t| && t[j] == BACKSLASH && !SpaceAt(t, j + 1) && t[j + 1..k] == Encode(r)
      && (r == BACKSLASH ==> t[j + 1] == BACKSLASH) && (r != BACKSLASH ==> Without(t, j + 1, k))
  {
    LetterStands(r, t, j);
    CharStands(r, t, j + 1);
    hide Encode, EscapeAt, SpaceAt, DecodeAt, LetterMeans;
  }

  lemma CodeJoins(digits: seq<Digit>, t: Bytes, j: nat)
    requires Fits(Code(digits)) && StandsAt(Spell(Code(digits)), t, j)
    ensures JoinFrom(t, j) == [BACKSLASH] + Escaped(digits) + JoinFrom(t, j + 1 + |Escaped(digits)|)
  {
    hide JoinFrom, Escaped, EscapeAt, SpaceAt, Without, Means;
    CodeStands(digits, t, j);
    EscapedIsFree(digits, t, j + 1);
    BackslashJoins(t, j, j + 1 + |Escaped(digits)|, Escaped(digits));
  }

  lemma BackslashJoins(t: Bytes, j: nat, k: nat, text: Bytes)
    requires j + 1 < k <= |t| && t[j] == BACKSLASH && !SpaceAt(t, j + 1) && t[j + 1..k] == text && Without(t, j + 1, k)
    ensures JoinFrom(t, j) == [BACKSLASH] + text + JoinFrom(t, k)
  {
    hide SpaceAt;
    JoinBackslash(t, j);
    CopiedBehind(t, j, k, text);
  }

  /** Text without a backslash is copied behind one. */
  lemma CopiedBehind(t: Bytes, j: nat, k: nat, text: Bytes)
    requires j < k <= |t| && t[j + 1..k] == text && Without(t, j + 1, k)
    ensures [BACKSLASH] + JoinFrom(t, j + 1) == [BACKSLASH] + text + JoinFrom(t, k)
  {
    hide JoinFrom;
    JoinCopies(t, j + 1, k);
    Assoc([BACKSLASH], text, JoinFrom(t, k));
  }

  lemma JoinBackslash(t: Bytes, j: nat)
    requires j + 1 < |t| && t[j] == BACKSLASH && !SpaceAt(t, j + 1)
    ensures JoinFrom(t, j) == if t[j + 1] == BACKSLASH then [BACKSLASH, BACKSLASH] + JoinFrom(t, j + 2) else [BACKSLASH] + JoinFrom(t, j + 1)
  {}

  lemma JoinSkips(t: Bytes, j: nat)
    requires j + 1 < |t| && t[j] == BACKSLASH && SpaceAt(t, j + 1)
    ensures JoinFrom(t, j) == JoinFrom(t, SkipSpace(t, j + 1))
  {
    AsciiDecodes(t, j + 1);
  }

  lemma EscapedIsFree(digits: seq<Digit>, t: Bytes, j: nat)
    requires AreDigits(digits) && StandsAt(Escaped(digits), t, j)
    ensures Without(t, j, j + |Escaped(digits)|) && |Escaped(digits)| > 0
  {
    var e := Escaped(digits);
    StandsPart(e, t, j, 0, |e|);
    forall k | j <= k < j + |e| ensures t[k] != BACKSLASH {
      assert t[j + (k - j)] == e[k - j];
    }
  }

  lemma {:induction false} TextJoins(items: seq<Item>, t: Bytes, j: nat)
    requires IsText(items) && IsText(WithoutGaps(items))
    requires StandsAt(Spelled(items), t, j) && (items != [] ==> Follows(items[|items| - 1], t, j + |Spelled(items)|))
    ensures JoinFrom(t, j) == Spelled(WithoutGaps(items)) + JoinFrom(t, j + |Spelled(items)|)
    decreases |items|
  {
    hide JoinFrom, Spell, Fits, FitsBefore, Follows;
    if items != [] {
      SpellStands(items, t, j);
      TextFollows(items, t, j);
      ItemJoins(items[0], t, j);
      var rest := items[1..];
      TextJoinsRest(items);
      TextJoins(rest, t, j + |Spell(items[0])|);
      if items[0].Gap? {
        assert [] + JoinFrom(t, j + |Spell(items[0])|) == JoinFrom(t, j + |Spell(items[0])|);
      } else {
        Assoc(Spell(items[0]), Spelled(WithoutGaps(rest)), JoinFrom(t, j + |Spelled(items)|));
      }
    } else {
      assert [] + JoinFrom(t, j) == JoinFrom(t, j);
    }
  }

  lemma TextJoinsRest(items: seq<Item>)
    requires IsText(items) && IsText(WithoutGaps(items)) && items != []
    ensures IsText(WithoutGaps(items[1..]))
    ensures items[0].Gap? ==> WithoutGaps(items) == WithoutGaps(items[1..])
    ensures !items[0].Gap? ==> WithoutGaps(items) == [items[0]] + WithoutGaps(items[1..]) && WithoutGaps(items)[1..] == WithoutGaps(items[1..])
  {
    var rest := WithoutGaps(items[1..]);
    assert WithoutGaps(items) == if items[0].Gap? then rest else [items[0]] + rest;
  }

  function GapFree(lines: seq<seq<Item>>): (r: seq<seq<Item>>)
    ensures |r| == |lines|
  {
    if lines == [] then [] else [WithoutGaps(lines[0])] + GapFree(lines[1..])
  }

  lemma {:induction false} NoGaps(items: seq<Item>)
    ensures forall k :: 0 <= k < |WithoutGaps(items)| ==> !WithoutGaps(items)[k].Gap? && WithoutGaps(items)[k] in items
  {
    if items != [] {
      var first, rest := if items[0].Gap? then [] else [items[0]], WithoutGaps(items[1..]);
      NoGaps(items[1..]);
      assert WithoutGaps(items) == first + rest;
    }
  }

  lemma {:induction false} WithoutNoGaps(items: seq<Item>)
    requires forall k :: 0 <= k < |items| ==> !items[k].Gap?
    ensures WithoutGaps(items) == items
  {
    if items != [] {
      assert forall k :: 0 <= k < |items[1..]| ==> items[1..][k] == items[k + 1];
      WithoutNoGaps(items[1..]);
    }
  }

  lemma GapFreeIsLine(items: seq<Item>)
    requires IsLine(items)
    ensures IsLine(WithoutGaps(items)) && forall k :: 0 <= k < |WithoutGaps(items)| ==> !WithoutGaps(items)[k].Gap?
  {
    NoGaps(items);
    WithoutNoGaps(WithoutGaps(items));
  }

  lemma {:induction false} GapFreeAreLines(lines: seq<seq<Item>>)
    requires AreLines(lines)
    ensures AreLines(GapFree(lines)) && AllLines(SpelledLines(GapFree(lines)))
  {
    hide IsLine, LineFrom, Spelled;
    if lines != [] {
      RestAreLines(lines);
      GapFreeAreLines(lines[1..]);
      GapFreeIsLine(lines[0]);
      ConsAreLines(WithoutGaps(lines[0]), GapFree(lines[1..]));
      LineOfText(WithoutGaps(lines[0]));
      SpelledCons(WithoutGaps(lines[0]), GapFree(lines[1..]));
    }
  }

  lemma LineOfText(items: seq<Item>)
    requires IsLine(items) && forall k :: 0 <= k < |items| ==> !items[k].Gap?
    ensures IsText(items) && LineFrom(Spelled(items), 0)
  {
    TextIsLine(items);
  }

  lemma {:induction false} BlankIsFree(s: Bytes, i: nat)
    requires i <= |s| && BlankFrom(s, i)
    ensures Without(s, i, |s|)
    decreases |s| - i
  {
    if i < |s| {
      AsciiDecodes(s, i);
      if s[i] >= 0x80 { HighBytes(s, i); }
      BlankIsFree(s, i + DecodeAt(s, i).size);
    }
  }

  lemma PrefixIsCopied(prefix: Bytes, t: Bytes, j: nat)
    requires BlankFrom(prefix, 0) && j + |prefix| <= |t| && t[j..j + |prefix|] == prefix
    ensures JoinFrom(t, j) == prefix + JoinFrom(t, j + |prefix|)
  {
    BlankIsFree(prefix, 0);
    assert forall k :: j <= k < j + |prefix| ==> t[k] == t[j..j + |prefix|][k - j] == prefix[k - j];
    JoinCopies(t, j, j + |prefix|);
  }

  lemma BreakIsCopied(t: Bytes, j: nat)
    requires j < |t| && t[j] == LF
    ensures JoinFrom(t, j) == [LF] + JoinFrom(t, j + 1)
  {}

  /** Joining the rows drops the escaped whitespace of every line. */
  lemma {:induction false} LinesJoin(lines: seq<seq<Item>>, prefix: Bytes, t: Bytes, j: nat)
    requires AreLines(lines) && BlankFrom(prefix, 0)
    requires j <= |t| && t[j..] == JoinLines(Rows(SpelledLines(lines), prefix) + [prefix])
    ensures AreLines(GapFree(lines))
    ensures JoinFrom(t, j) == JoinLines(Rows(SpelledLines(GapFree(lines)), prefix) + [prefix])
    decreases |lines|
  {
    hide JoinFrom, BlankFrom, IsText, Spelled, Follows, LineFrom;
    GapFreeAreLines(lines);
    if lines == [] {
      assert Rows(SpelledLines(lines), prefix) + [prefix] == [prefix];
      assert Rows(SpelledLines(GapFree(lines)), prefix) + [prefix] == [prefix];
      assert prefix + [] == prefix;
      Behind(prefix, t, j, []);
      PrefixIsCopied(prefix, t, j);
      JoinNothing(t);
    } else {
      RestAreLines(lines);
      var items := lines[0];
      var line := Spelled(items);
      RowsCons(line, SpelledLines(lines[1..]), prefix);
      RowStands(prefix, line, JoinLines(Rows(SpelledLines(lines[1..]), prefix) + [prefix]), t, j);
      var j1, j2 := j + |prefix|, j + |prefix| + |line|;
      PrefixIsCopied(prefix, t, j);
      if items != [] { LineEndFollows(items, t, j2); }
      LineJoins(items, t, j1);
      BreakIsCopied(t, j2);
      LinesJoin(lines[1..], prefix, t, j2 + 1);
      var free, after := Spelled(WithoutGaps(items)), SpelledLines(GapFree(lines[1..]));
      SpelledCons(WithoutGaps(items), GapFree(lines[1..]));
      RowsCons(free, after, prefix);
      Reassociate(prefix, free, JoinLines(Rows(after, prefix) + [prefix]));
    }
  }

  lemma RowsCons(line: Bytes, rest: seq<Bytes>, prefix: Bytes)
    ensures JoinLines(Rows([line] + rest, prefix) + [prefix]) == prefix + line + [LF] + JoinLines(Rows(rest, prefix) + [prefix])
  {
    assert ([line] + rest)[1..] == rest;
    assert Rows([line] + rest, prefix) + [prefix] == [prefix + line] + (Rows(rest, prefix) + [prefix]);
    JoinCons(prefix + line, Rows(rest, prefix) + [prefix]);
  }

  lemma RowStands(prefix: Bytes, line: Bytes, rest: Bytes, t: Bytes, j: nat)
    requires j <= |t| && t[j..] == prefix + line + [LF] + rest
    ensures j + |prefix| <= |t| && t[j..j + |prefix|] == prefix
    ensures var j1 := j + |prefix|; var j2 := j1 + |line|;
      j2 < |t| && t[j1..j2] == line && t[j2] == LF && t[j2 + 1..] == rest
  {
    Reassociate(prefix, line, rest);
    Behind(prefix, t, j, line + ([LF] + rest));
    var j1 := j + |prefix|;
    Behind(line, t, j1, [LF] + rest);
    var j2 := j1 + |line|;
    Behind([LF], t, j2, rest);
    assert t[j2] == t[j2..j2 + 1][0];
  }

  lemma LineJoins(items: seq<Item>, t: Bytes, j: nat)
    requires IsLine(items) && j + |Spelled(items)| <= |t| && t[j..j + |Spelled(items)|] == Spelled(items)
    requires items != [] ==> Follows(items[|items| - 1], t, j + |Spelled(items)|)
    ensures IsText(WithoutGaps(items)) && JoinFrom(t, j) == Spelled(WithoutGaps(items)) + JoinFrom(t, j + |Spelled(items)|)
  {
    TextJoins(items, t, j);
  }

  // ----- blank lines -----

  /** A line of items without gaps is whitespace exactly if all of its items are. */
  lemma {:induction false} BlankText(items: seq<Item>, t: Bytes, j: nat)
    requires IsText(items) && (forall k :: 0 <= k < |items| ==> !items[k].Gap?)
    requires StandsAt(Spelled(items), t, j) && j + |Spelled(items)| == |t|
    ensures BlankFrom(t, j) <==> IsBlankLine(items)
    decreases |items|
  {
    hide Spell, Fits, FitsBefore, IsWhiteSpace;
    if items != [] {
      SpellStands(items, t, j);
      var rest := items[1..];
      assert forall k :: 0 <= k < |rest| ==> rest[k] == items[k + 1];
      BlankText(rest, t, j + |Spell(items[0])|);
      BlankItem(items[0], t, j);
      assert IsBlankLine(items) <==> items[0].Char? && IsWhiteSpace(items[0].r) && IsBlankLine(rest) by {
        if items[0].Char? && IsWhiteSpace(items[0].r) && IsBlankLine(rest) {
          forall k | 0 <= k < |items| ensures items[k].Char? && IsWhiteSpace(items[k].r) {
            if k > 0 { assert items[k] == rest[k - 1]; }
          }
        }
      }
    }
  }

  lemma BlankItem(item: Item, t: Bytes, j: nat)
    requires Fits(item) && !item.Gap? && StandsAt(Spell(item), t, j)
    ensures j < |t|
    ensures if item.Char? then DecodeAt(t, j) == Decoded(item.r, |Spell(item)|) else !IsWhiteSpace(DecodeAt(t, j).c)
  {
    hide Encode;
    if item.Char? {
      CharStands(item.r, t, j);
    } else {
      StandsPart(Spell(item), t, j, 0, 1);
      assert t[j + 0] == BACKSLASH;
      AsciiDecodes(t, j);
    }
  }

  /** Escaped whitespace is followed by something else, so that dropping it makes no line blank. */
  lemma {:induction false} GapsKeepBlank(items: seq<Item>)
    requires IsText(items) && (items != [] ==> !items[|items| - 1].Gap?)
    ensures IsBlankLine(items) <==> IsBlankLine(WithoutGaps(items))
  {
    hide IsWhiteSpace, IsNewline;
    if items != [] {
      var rest, free := items[1..], WithoutGaps(items[1..]);
      GapsKeepBlank(rest);
      assert forall k :: 0 <= k < |rest| ==> rest[k] == items[k + 1];
      if items[0].Gap? {
        assert WithoutGaps(items) == free;
        assert !IsBlankLine(rest) by { assert FitsBefore(items[0], rest) && rest != []; }
      } else {
        assert WithoutGaps(items) == [items[0]] + free;
        assert forall k :: 0 <= k < |free| ==> WithoutGaps(items)[k + 1] == free[k];
        assert WithoutGaps(items)[0] == items[0];
      }
    }
  }

  // ----- the second pass -----

  lemma AfterAfter(a: Bytes, b: Bytes, rest: Option<Bytes>)
    ensures After(a, After(b, rest)) == After(a + b, rest)
  {
    if rest.Some? { Assoc(a, b, rest.value); }
  }

  /** Resolving one item. */
  lemma ItemResolves(item: Item, t: Bytes, j: nat)
    requires Fits(item) && !item.Gap? && StandsAt(Spell(item), t, j) && Follows(item, t, j + |Spell(item)|)
    ensures ResolveFrom(t, j) == if Means(item).None? then None else After(Means(item).value, ResolveFrom(t, j + |Spell(item)|))
  {
    hide EscapeAt, DecodeAt, Encode, Escaped, SpaceAt, LetterMeans;
    match item
    case Char(r) => CharStands(r, t, j);
    case Letter(r) => LetterStands(r, t, j);
    case Code(digits) => CodeStands(digits, t, j);
    case Unbraced => UnbracedStands(t, j);
  }

  lemma {:induction false} TextResolves(items: seq<Item>, t: Bytes, j: nat)
    requires IsText(items) && forall k :: 0 <= k < |items| ==> !items[k].Gap?
    requires StandsAt(Spelled(items), t, j) && (items != [] ==> Follows(items[|items| - 1], t, j + |Spelled(items)|))
    ensures ResolveFrom(t, j) == if Meaning(items).None? then None else After(Meaning(items).value, ResolveFrom(t, j + |Spelled(items)|))
    decreases |items|
  {
    hide ResolveFrom, Means, Spell, Fits, FitsBefore, Follows;
    var rest := ResolveFrom(t, j + |Spelled(items)|);
    if items == [] {
      AfterIsNothing(rest);
    } else {
      SpellStands(items, t, j);
      TextFollows(items, t, j);
      ItemResolves(items[0], t, j);
      assert forall k :: 0 <= k < |items[1..]| ==> items[1..][k] == items[k + 1];
      TextResolves(items[1..], t, j + |Spell(items[0])|);
      if Means(items[0]).Some? && Meaning(items[1..]).Some? { AfterAfter(Means(items[0]).value, Meaning(items[1..]).value, rest); }
    }
  }

  lemma BreakResolves(t: Bytes, j: nat)
    requires j < |t| && t[j] == LF
    ensures ResolveFrom(t, j) == After([LF], ResolveFrom(t, j + 1))
  {}

  lemma ResolvedEnd(t: Bytes)
    ensures ResolveFrom(t, |t|) == Some([])
  {}

  /** Lines without gaps, the blank ones empty. */
  predicate AreSettled(lines: seq<seq<Item>>) {
    && AreLines(lines)
    && forall k :: 0 <= k < |lines| ==> WithoutGaps(lines[k]) == lines[k] && (IsBlankLine(lines[k]) ==> lines[k] == [])
  }

  lemma RestAreSettled(lines: seq<seq<Item>>)
    requires AreSettled(lines) && lines != []
    ensures IsLine(lines[0]) && AreLines(lines[1..]) && AreSettled(lines[1..]) && forall k :: 0 <= k < |lines[0]| ==> !lines[0][k].Gap?
    ensures LineMeanings(lines) == if Meaning(lines[0]).None? || LineMeanings(lines[1..]).None? then None
      else Some([Meaning(lines[0]).value] + LineMeanings(lines[1..]).value)
  {
    RestAreLines(lines);
    assert forall k :: 0 <= k < |lines[1..]| ==> lines[1..][k] == lines[k + 1];
    NoGaps(lines[0]);
  }

  /** Resolving settled lines, joined by LF, gives their meanings, joined by LF. */
  lemma {:induction false} LinesResolve(lines: seq<seq<Item>>, t: Bytes, j: nat)
    requires AreSettled(lines) && lines != [] && j <= |t| && t[j..] == JoinLines(SpelledLines(lines))
    ensures ResolveFrom(t, j) == if LineMeanings(lines).None? then None else Some(JoinLines(LineMeanings(lines).value))
    decreases |lines|
  {
    hide ResolveFrom, AreSettled, IsText, Spelled, Meaning, Follows, LineMeanings, IsLine;
    RestAreSettled(lines);
    var items, rest := lines[0], lines[1..];
    var line := Spelled(items);
    if rest == [] {
      assert line + [] == line;
      Behind(line, t, j, []);
      LineResolves(items, t, j);
      ResolvedEnd(t);
      if Meaning(items).Some? { AfterNothing(Meaning(items).value); }
      NothingMeant();
    } else {
      var k := j + |line|;
      FirstLineStands(line, JoinLines(SpelledLines(rest)), t, j);
      LineResolves(items, t, j);
      BreakResolves(t, k);
      LinesResolve(rest, t, k + 1);
      if Meaning(items).Some? && LineMeanings(rest).Some? {
        MeaningsLength(rest);
        JoinCons(Meaning(items).value, LineMeanings(rest).value);
        AfterAfter(Meaning(items).value, [LF], Some(JoinLines(LineMeanings(rest).value)));
      }
    }
  }

  lemma FirstLineStands(line: Bytes, rest: Bytes, t: Bytes, j: nat)
    requires j <= |t| && t[j..] == line + [LF] + rest
    ensures var k := j + |line|;
      k < |t| && t[j..k] == line && t[k] == LF && t[k + 1..] == rest
  {
    Assoc(line, [LF], rest);
    Behind(line, t, j, [LF] + rest);
    var k := j + |line|;
    Behind([LF], t, k, rest);
    assert t[k] == t[k..k + 1][0];
  }

  lemma NothingMeant()
    ensures LineMeanings([]) == Some([])
  {}

  lemma {:induction false} MeaningsLength(lines: seq<seq<Item>>)
    requires AreLines(lines)
    ensures LineMeanings(lines).Some? ==> |LineMeanings(lines).value| == |lines|
  {
    hide Meaning, IsBlankLine, IsLine;
    if lines != [] {
      RestAreLines(lines);
      MeaningsLength(lines[1..]);
    }
  }

  lemma LineResolves(items: seq<Item>, t: Bytes, j: nat)
    requires IsLine(items) && forall k :: 0 <= k < |items| ==> !items[k].Gap?
    requires j + |Spelled(items)| <= |t| && t[j..j + |Spelled(items)|] == Spelled(items)
    requires j + |Spelled(items)| < |t| ==> t[j + |Spelled(items)|] == LF
    ensures ResolveFrom(t, j) == if Meaning(items).None? then None else After(Meaning(items).value, ResolveFrom(t, j + |Spelled(items)|))
  {
    if items != [] { LineEndFollows(items, t, j + |Spelled(items)|); }
    TextResolves(items, t, j);
  }

  // ----- text without a backslash -----

  lemma {:induction false} PlainTextMeans(items: seq<Item>)
    requires IsText(items) && BACKSLASH !in Spelled(items)
    ensures Meaning(items) == Some(Spelled(items))
  {
    hide FitsBefore, Encode, Escaped;
    if items != [] {
      var first := Spell(items[0]);
      assert first[0] in first && first[0] == Spelled(items)[0];
      assert forall b :: b in Spelled(items[1..]) ==> b in Spelled(items);
      PlainTextMeans(items[1..]);
    }
  }

  lemma {:induction false} PlainLinesMean(lines: seq<seq<Item>>)
    requires AreSettled(lines) && BACKSLASH !in JoinLines(SpelledLines(lines))
    ensures LineMeanings(lines) == Some(SpelledLines(lines))
  {
    hide AreSettled, IsText, Spelled, Meaning, LineMeanings, IsLine;
    if lines == [] {
      NothingMeant();
    } else {
      RestAreSettled(lines);
      var first, rest := Spelled(lines[0]), SpelledLines(lines[1..]);
      assert BACKSLASH !in first && BACKSLASH !in JoinLines(rest);
      PlainLineMeans(lines[0]);
      PlainLinesMean(lines[1..]);
    }
  }

  lemma PlainLineMeans(items: seq<Item>)
    requires IsLine(items) && BACKSLASH !in Spelled(items)
    ensures Meaning(items) == Some(Spelled(items))
  {
    PlainTextMeans(items);
  }

  // ----- what a multi-line string means -----

  function SettledLines(lines: seq<seq<Item>>): (r: seq<seq<Item>>)
    ensures |r| == |lines|
  {
    if lines == [] then [] else [if IsBlankLine(lines[0]) then [] else WithoutGaps(lines[0])] + SettledLines(lines[1..])
  }

  lemma {:induction false} GapsMeanNothing(items: seq<Item>)
    requires IsText(items) && IsText(WithoutGaps(items))
    ensures Meaning(WithoutGaps(items)) == Meaning(items)
  {
    hide Means, Fits, FitsBefore;
    if items != [] {
      TextJoinsRest(items);
      GapsMeanNothing(items[1..]);
      if items[0].Gap? {
        GapMeans(items[0]);
        if Meaning(items[1..]).Some? { assert [] + Meaning(items[1..]).value == Meaning(items[1..]).value; }
      }
    }
  }

  lemma GapMeans(item: Item)
    requires Fits(item) && item.Gap?
    ensures Means(item) == Some([])
  {}

  /** Settling lines keeps their meaning, and is what removing the indentation does to their text. */
  lemma {:induction false} SettledMean(lines: seq<seq<Item>>)
    requires AreLines(lines)
    ensures AreSettled(SettledLines(lines)) && LineMeanings(SettledLines(lines)) == LineMeanings(lines)
    ensures AreLines(GapFree(lines)) && SpelledLines(SettledLines(lines)) == BlanksEmptied(SpelledLines(GapFree(lines)))
  {
    hide IsText, Spelled, IsLine, Meaning, BlankFrom, WithoutGaps, IsBlankLine;
    if lines != [] {
      RestAreLines(lines);
      SettledMean(lines[1..]);
      var first, rest := lines[0], SettledLines(lines[1..]);
      var settled := if IsBlankLine(first) then [] else WithoutGaps(first);
      LineSettles(first);
      SettledCons(settled, rest);
      ConsAreLines(WithoutGaps(first), GapFree(lines[1..]));
      SpelledCons(WithoutGaps(first), GapFree(lines[1..]));
      SpelledCons(settled, rest);
      assert BlanksEmptied(SpelledLines(GapFree(lines)))
        == [BlankEmptied(Spelled(WithoutGaps(first)))] + BlanksEmptied(SpelledLines(GapFree(lines[1..])));
    }
  }

  lemma SettledCons(first: seq<Item>, rest: seq<seq<Item>>)
    requires AreSettled(rest) && IsLine(first) && WithoutGaps(first) == first && (IsBlankLine(first) ==> first == [])
    ensures AreSettled([first] + rest)
    ensures LineMeanings([first] + rest) == if Meaning(first).None? || LineMeanings(rest).None? then None
      else Some([Meaning(first).value] + LineMeanings(rest).value)
  {
    var all := [first] + rest;
    assert all[1..] == rest && all[0] == first;
    RestAreSettled(all);
  }

  lemma LineSettles(items: seq<Item>)
    requires IsLine(items)
    ensures IsLine(WithoutGaps(items)) && WithoutGaps(WithoutGaps(items)) == WithoutGaps(items)
    ensures IsBlankLine(WithoutGaps(items)) <==> IsBlankLine(items)
    ensures BlankFrom(Spelled(WithoutGaps(items)), 0) <==> IsBlankLine(items)
    ensures Meaning(WithoutGaps(items)) == Meaning(items)
    ensures IsLine([]) && WithoutGaps([]) == [] && Spelled([]) == [] && Meaning([]) == Some([]) && IsBlankLine([])
  {
    hide IsBlankLine;
    var free := WithoutGaps(items);
    GapFreeIsLine(items);
    WithoutNoGaps(free);
    GapsKeepBlank(items);
    GapsMeanNothing(items);
    var t := Spelled(free);
    assert t[0..|t|] == t;
    BlankText(free, t, 0);
    BlankNothing();
  }

  lemma BlankNothing()
    ensures IsBlankLine([])
  {}

  lemma JoinedLines(lines: seq<seq<Item>>, prefix: Bytes, nl: Bytes)
    requires AreLines(lines) && lines != [] && BlankFrom(prefix, 0) && IsBreak(nl)
    ensures AreLines(SettledLines(lines))
    ensures var body := Indented(SpelledLines(lines), prefix, nl);
      Undented(JoinFrom(NormalizeFrom(body, 0), 0)) == Some(JoinLines(SpelledLines(SettledLines(lines))))
  {
    hide Undented, NormalizeFrom, JoinFrom, BlankFrom, IsLine, IsText, Spelled, IsBlankLine, Indented, LineMeanings, JoinLines, Rows;
    var body := Indented(SpelledLines(lines), prefix, nl);
    assert body[0..] == body;
    LinesNormalize(lines, prefix, nl, body, 0);
    var normal := NormalLines(lines);
    var u := NormalizeFrom(body, 0);
    assert u[0..] == u;
    LinesJoin(normal, prefix, u, 0);
    NormalGapFree(lines);
    GapFreeAreLines(lines);
    UndentRows(SpelledLines(GapFree(lines)), prefix);
    SettledMean(lines);
  }

  lemma {:induction false} NormalGapFree(lines: seq<seq<Item>>)
    requires AreLines(lines)
    ensures GapFree(NormalLines(lines)) == GapFree(lines)
  {
    hide IsLine, IsText;
    if lines != [] {
      RestAreLines(lines);
      NormalGapFree(lines[1..]);
      NormalsAreLine(lines[0]);
      assert NormalLines(lines)[1..] == NormalLines(lines[1..]);
    }
  }

  /**
   * Main result: what a multi-line string with any escapes means. For all lines, indentations and both newlines, it is the
   * meanings of the lines, as in single-line strings, joined by LF, blank lines being empty; if a line holds an escape that
   * cannot be read, the string cannot be read.
   */
  lemma MultilineMeans(lines: seq<seq<Item>>, prefix: Bytes, nl: Bytes)
    requires AreLines(lines) && lines != [] && BlankFrom(prefix, 0) && IsBreak(nl)
    ensures QuotedText(QuotedLiteral(lines, prefix, nl)) ==
      if LineMeanings(lines).None? then None else Some(JoinLines(LineMeanings(lines).value))
  {
    hide Undented, NormalizeFrom, JoinFrom, BlankFrom, IsLine, Spelled, IsBlankLine, Indented, LineMeanings, JoinLines, ResolveFrom;
    var body := Indented(SpelledLines(lines), prefix, nl);
    var text, b := nl + body, QuotedLiteral(lines, prefix, nl);
    assert b == TRIPLE + text + TRIPLE;
    assert b[..3] == TRIPLE && b[|b| - 3..] == TRIPLE && b[3..|b| - 3] == text;
    assert text[0..|nl|] == nl;
    BreakBecomesLF(nl, text, 0);
    assert text[|nl|..] == body;
    JoinedLines(lines, prefix, nl);
    SettledMean(lines);
    var content := JoinLines(SpelledLines(SettledLines(lines)));
    ContentResolves(SettledLines(lines));
  }

  lemma ContentResolves(lines: seq<seq<Item>>)
    requires AreSettled(lines) && lines != []
    ensures Resolved(JoinLines(SpelledLines(lines))) == if LineMeanings(lines).None? then None else Some(JoinLines(LineMeanings(lines).value))
  {
    hide LineMeanings, JoinLines, ResolveFrom, SpelledLines;
    var content := JoinLines(SpelledLines(lines));
    if BACKSLASH !in content {
      PlainLinesMean(lines);
    } else {
      assert content[0..] == content;
      LinesResolve(lines, content, 0);
    }
  }

  // ----- escaped lines read back -----

  /** The item that writes the character at i. */
  function ItemAt(s: Bytes, i: nat): Item
    requires i < |s|
  {
    if IsPlain(s[i]) || s[i] >= 0x80 then Char(DecodeAt(s, i).c) else Letter(Escape(s[i])[1])
  }

  function ItemsFrom(s: Bytes, i: nat): seq<Item>
    requires i <= |s|
    decreases |s| - i
  {
    if i == |s| then [] else [ItemAt(s, i)] + ItemsFrom(s, Next(s, i))
  }

  lemma ItemIsPiece(s: Bytes, i: nat)
    requires i < |s| && QuotableAt(s, i)
    ensures Fits(ItemAt(s, i)) && Spell(ItemAt(s, i)) == Piece(s, i) && Means(ItemAt(s, i)) == Some(s[i..Next(s, i)])
  {
    AsciiDecodes(s, i);
    DecodedIsEncoded(s, i);
    if !IsPlain(s[i]) && s[i] < 0x80 {
      LetterIsListed(Escape(s[i])[1], 0);
      assert s[i..i + 1] == [s[i]];
    }
  }

  lemma {:induction false} EscapedIsText(s: Bytes, i: nat)
    requires i <= |s| && QuotableFrom(s, i)
    ensures IsText(ItemsFrom(s, i)) && Spelled(ItemsFrom(s, i)) == EscapeFrom(s, i) && Meaning(ItemsFrom(s, i)) == Some(s[i..])
    ensures forall k :: 0 <= k < |ItemsFrom(s, i)| ==> ItemsFrom(s, i)[k].Char? || ItemsFrom(s, i)[k].Letter?
    decreases |s| - i
  {
    hide Fits, Spell, Means, ValidFrom, HasEscape, QuotableAt, Next, Piece;
    if i == |s| {
      assert s[i..] == [];
    } else {
      var k := Next(s, i);
      QuotableStep(s, i);
      ItemIsPiece(s, i);
      EscapedIsText(s, k);
      var e := EscapeFrom(s, i);
      assert e[0..] == e;
      Ahead(s, i, e, 0);
      assert ItemsFrom(s, i)[1..] == ItemsFrom(s, k);
    }
  }

  /** A line has no newline character. */
  lemma {:induction false} LineHasNoBreak(items: seq<Item>, t: Bytes, j: nat)
    requires IsText(items) && forall k :: 0 <= k < |items| ==> items[k].Char? || items[k].Letter?
    requires StandsAt(Spelled(items), t, j) && j + |Spelled(items)| == |t| && LineFrom(t, j)
    ensures forall k :: 0 <= k < |items| && items[k].Char? ==> !IsNewline(items[k].r)
    decreases |items|
  {
    hide Spell, Fits, FitsBefore, LineFrom, IsNewline;
    if items != [] {
      SpellStands(items, t, j);
      assert forall k :: 0 <= k < |items[1..]| ==> items[1..][k] == items[k + 1];
      ItemHasNoBreak(items[0], t, j);
      LineHasNoBreak(items[1..], t, j + |Spell(items[0])|);
    }
  }

  lemma ItemHasNoBreak(item: Item, t: Bytes, j: nat)
    requires Fits(item) && (item.Char? || item.Letter?) && StandsAt(Spell(item), t, j) && LineFrom(t, j)
    ensures item.Char? ==> !IsNewline(item.r)
    ensures LineFrom(t, j + |Spell(item)|)
  {
    hide Encode, IsNewline;
    if item.Char? {
      CharStands(item.r, t, j);
    } else {
      LetterStands(item.r, t, j);
      AsciiDecodes(t, j);
      CharStands(item.r, t, j + 1);
    }
  }

  /** A line that can be written: quotable, and its escaped form holds no newline. */
  predicate Writable(line: Bytes) { QuotableFrom(line, 0) && LineFrom(EscapeFrom(line, 0), 0) }

  function EscapedLines(lines: seq<Bytes>): (r: seq<Bytes>)
    ensures |r| == |lines|
  {
    if lines == [] then [] else [EscapeFrom(lines[0], 0)] + EscapedLines(lines[1..])
  }

  /** A line as it comes back: empty if it is written as whitespace only. */
  function Kept(line: Bytes): Bytes {
    if BlankFrom(EscapeFrom(line, 0), 0) then [] else line
  }

  function AllKept(lines: seq<Bytes>): (r: seq<Bytes>)
    ensures |r| == |lines| && forall k :: 0 <= k < |lines| ==> r[k] == Kept(lines[k])
  {
    if lines == [] then [] else [Kept(lines[0])] + AllKept(lines[1..])
  }

  function ItemLines(lines: seq<Bytes>): (r: seq<seq<Item>>)
    ensures |r| == |lines|
  {
    if lines == [] then [] else [ItemsFrom(lines[0], 0)] + ItemLines(lines[1..])
  }

  lemma EscapedIsLine(line: Bytes)
    requires Writable(line)
    ensures var items := ItemsFrom(line, 0);
      && IsLine(items) && Spelled(items) == EscapeFrom(line, 0) && Meaning(items) == Some(line)
      && (IsBlankLine(items) <==> BlankFrom(EscapeFrom(line, 0), 0))
  {
    hide IsBlankLine, LineFrom, BlankFrom;
    var items := ItemsFrom(line, 0);
    EscapedIsText(line, 0);
    assert line[0..] == line;
    WithoutNoGaps(items);
    var t := Spelled(items);
    assert t[0..|t|] == t;
    LineHasNoBreak(items, t, 0);
    BlankText(items, t, 0);
  }

  lemma {:induction false} EscapedLinesMean(lines: seq<Bytes>)
    requires forall k :: 0 <= k < |lines| ==> Writable(lines[k])
    ensures AreLines(ItemLines(lines)) && SpelledLines(ItemLines(lines)) == EscapedLines(lines)
    ensures LineMeanings(ItemLines(lines)) == Some(AllKept(lines))
  {
    hide IsLine, IsText, Writable, Spelled, Meaning, IsBlankLine, BlankFrom, Kept;
    if lines == [] {
      NothingMeant();
    } else {
      assert forall k :: 0 <= k < |lines[1..]| ==> lines[1..][k] == lines[k + 1];
      EscapedLinesMean(lines[1..]);
      EscapedIsLine(lines[0]);
      var first, rest := ItemsFrom(lines[0], 0), ItemLines(lines[1..]);
      SpelledCons(first, rest);
      assert ItemLines(lines) == [first] + rest && ItemLines(lines)[1..] == rest;
      KeptIs(lines[0]);
    }
  }

  lemma KeptIs(line: Bytes)
    ensures Kept(line) == if BlankFrom(EscapeFrom(line, 0), 0) then [] else line
  {}

  lemma {:induction false} EmptiedLength(kept: seq<Bytes>, lines: seq<Bytes>)
    requires |kept| == |lines| && forall k :: 0 <= k < |lines| ==> kept[k] == lines[k] || kept[k] == []
    ensures |JoinLines(kept)| <= |JoinLines(lines)|
    ensures |JoinLines(kept)| == |JoinLines(lines)| ==> kept == lines
  {
    if |lines| == 1 {
      assert lines == [lines[0]] && kept == [kept[0]];
    } else if |lines| > 1 {
      var k, l := kept[1..], lines[1..];
      assert forall n :: 0 <= n < |l| ==> k[n] == kept[n + 1] && l[n] == lines[n + 1];
      EmptiedLength(k, l);
      assert kept == [kept[0]] + k && lines == [lines[0]] + l;
    }
  }

  /**
   * Lines that are escaped as in single-line strings and written between triple quotes read back as themselves, joined by LF,
   * except that lines written as whitespace only come back empty; so they read back exactly if every such line is empty.
   */
  lemma EscapedLinesReadBack(lines: seq<Bytes>, prefix: Bytes, nl: Bytes)
    requires lines != [] && BlankFrom(prefix, 0) && IsBreak(nl) && forall k :: 0 <= k < |lines| ==> Writable(lines[k])
    ensures var r := QuotedText(TRIPLE + nl + Indented(EscapedLines(lines), prefix, nl) + TRIPLE);
      && r == Some(JoinLines(AllKept(lines)))
      && (r == Some(JoinLines(lines)) <==>
        forall k :: 0 <= k < |lines| && BlankFrom(EscapeFrom(lines[k], 0), 0) ==> lines[k] == [])
  {
    hide QuotedText, Indented, JoinLines, Writable, BlankFrom, LineMeanings, AreLines;
    EscapedLinesMean(lines);
    MultilineMeans(ItemLines(lines), prefix, nl);
    EmptiedLength(AllKept(lines), lines);
    if AllKept(lines) == lines {
      forall k | 0 <= k < |lines| && BlankFrom(EscapeFrom(lines[k], 0), 0) ensures lines[k] == [] { assert AllKept(lines)[k] == Kept(lines[k]); }
    }
  }

  // ----- escaped line breaks -----

  lemma {:induction false} WithoutGapsSum(a: seq<Item>, b: seq<Item>)
    ensures WithoutGaps(a + b) == WithoutGaps(a) + WithoutGaps(b)
  {
    if a == [] {
      assert a + b == b;
    } else {
      assert (a + b)[1..] == a[1..] + b;
      WithoutGapsSum(a[1..], b);
    }
  }

  /** Escaped whitespace, line breaks included, joins what is before it to what is behind it, as one line of the string. */
  lemma EscapedBreakJoins(before: seq<seq<Item>>, a: seq<Item>, space: Bytes, b: seq<Item>, after: seq<seq<Item>>, prefix: Bytes, nl: Bytes)
    requires AreLines(before + [a + [Gap(space)] + b] + after) && AreLines(before + [a + b] + after) && BlankFrom(prefix, 0) && IsBreak(nl)
    ensures QuotedText(QuotedLiteral(before + [a + [Gap(space)] + b] + after, prefix, nl))
      == QuotedText(QuotedLiteral(before + [a + b] + after, prefix, nl))
  {
    hide QuotedText, QuotedLiteral, JoinLines, LineMeanings, BlankFrom;
    var split, whole := before + [a + [Gap(space)] + b] + after, before + [a + b] + after;
    MultilineMeans(split, prefix, nl);
    MultilineMeans(whole, prefix, nl);
    WithoutGapsSum(a + [Gap(space)], b);
    WithoutGapsSum(a, [Gap(space)]);
    WithoutGapsSum(a, b);
    assert WithoutGaps([Gap(space)]) == [];
    SameGapFree(split, whole);
  }

  lemma {:induction false} SameGapFree(x: seq<seq<Item>>, y: seq<seq<Item>>)
    requires AreLines(x) && AreLines(y) && |x| == |y| && forall k :: 0 <= k < |x| ==> WithoutGaps(x[k]) == WithoutGaps(y[k])
    ensures LineMeanings(x) == LineMeanings(y)
  {
    hide IsText, Meaning, IsBlankLine, WithoutGaps;
    if x != [] {
      RestAreLines(x);
      RestAreLines(y);
      assert forall k :: 0 <= k < |x[1..]| ==> x[1..][k] == x[k + 1] && y[1..][k] == y[k + 1];
      SameGapFree(x[1..], y[1..]);
      LineSettles(x[0]);
      LineSettles(y[0]);
    }
  }
}
