// Multi-line strings: newline normalization, the indentation given by the closing line, and its removal.
module Multiline {
  import opened Basics
  import opened Utf8
  import opened Strings

  const LF: Byte := 0x0A

  /** The length of the newline sequence at i, or 0. */
  function NewlineAt(s: Bytes, i: nat): (n: nat)
    ensures n > 0 ==> i + n <= |s|
  {
    if i >= |s| || !IsNewline(DecodeAt(s, i).c) then 0
    else if s[i] == 0x0D && i + 1 < |s| && s[i + 1] == LF then 2
    else DecodeAt(s, i).size
  }

  /** s[i..] with every newline sequence replaced by LF. */
  function NormalizeFrom(s: Bytes, i: nat): Bytes
    requires i <= |s|
    decreases |s| - i
  {
    if i == |s| then []
    else if NewlineAt(s, i) > 0 then [LF] + NormalizeFrom(s, i + NewlineAt(s, i))
    else [s[i]] + NormalizeFrom(s, i + 1)
  }

  /** Nothing but whitespace, and no newline. */
  predicate BlankFrom(s: Bytes, i: nat)
    requires i <= |s|
    decreases |s| - i
  {
    i == |s| || (IsWhiteSpace(DecodeAt(s, i).c) && BlankFrom(s, i + DecodeAt(s, i).size))
  }

  /** The first LF at or after i, or the end. */
  function FirstLF(s: Bytes, i: nat): (k: nat)
    requires i <= |s|
    ensures i <= k <= |s| && (k < |s| ==> s[k] == LF) && forall m :: i <= m < k ==> s[m] != LF
    decreases |s| - i
  {
    if i < |s| && s[i] != LF then FirstLF(s, i + 1) else i
  }

  /** The last LF before i. */
  function LastLF(s: Bytes, i: nat): (k: Option<nat>)
    requires i <= |s|
    ensures k.Some? ==> k.value < i && s[k.value] == LF
    ensures forall m :: (if k.Some? then k.value < m else 0 <= m) && m < i ==> s[m] != LF
  {
    if i == 0 then None else if s[i - 1] == LF then Some(i - 1) else LastLF(s, i - 1)
  }

  function Split(s: Bytes): (lines: seq<Bytes>)
    ensures lines != []
    decreases |s|
  {
    var k := FirstLF(s, 0);
    if k == |s| then [s] else [s[..k]] + Split(s[k + 1..])
  }

  function JoinLines(lines: seq<Bytes>): Bytes {
    if lines == [] then []
    else if |lines| == 1 then lines[0]
    else lines[0] + [LF] + JoinLines(lines[1..])
  }

  /** A line without its indentation; a line of whitespace becomes empty, whatever its indentation. */
  function DedentLine(line: Bytes, prefix: Bytes): Option<Bytes> {
    if BlankFrom(line, 0) then Some([])
    else if prefix <= line then Some(line[|prefix|..])
    else None
  }

  function DedentAll(lines: seq<Bytes>, prefix: Bytes): (r: Option<seq<Bytes>>)
    ensures r.Some? ==> |r.value| == |lines|
  {
    if lines == [] then Some([])
    else
      var first :- DedentLine(lines[0], prefix);
      var rest :- DedentAll(lines[1..], prefix);
      Some([first] + rest)
  }

  function Dedent(s: Bytes, prefix: Bytes): Option<Bytes> {
    var lines :- DedentAll(Split(s), prefix);
    Some(JoinLines(lines))
  }

  /** The content lines of normalized text, freed of the indentation that the closing line shows. */
  function Undented(s: Bytes): Option<Bytes> {
    var last := LastLF(s, |s|);
    var closing := if last.Some? then s[last.value + 1..] else s;
    if !BlankFrom(closing, 0) then None
    else if last.None? then Some([])
    else Dedent(s[..last.value], closing)
  }

  /** What is left of the text between the delimiters without its first newline, which must be there. */
  function Opened(s: Bytes): Option<Bytes> {
    if NewlineAt(s, 0) == 0 then None else Some(s[NewlineAt(s, 0)..])
  }

  function LeadingHashes(s: Bytes, i: nat): (n: nat)
    requires i <= |s|
    ensures i + n <= |s|
    decreases |s| - i
  {
    if i < |s| && s[i] == '#' as int then 1 + LeadingHashes(s, i + 1) else 0
  }

  /** parseMultilineRawString */
  function RawText(b: Bytes): Option<Bytes> {
    var n := LeadingHashes(b, 0);
    if |b| < 2 * (n + 3) then None
    else
      var s :- Opened(b[n + 3..|b| - (n + 3)]);
      Undented(NormalizeFrom(s, 0))
  }

  const TRIPLE: Bytes := [QUOTE, QUOTE, QUOTE]

  /** parseMultilineString */
  function QuotedText(b: Bytes): Option<Bytes> {
    if |b| < 6 || b[..3] != TRIPLE || b[|b| - 3..] != TRIPLE then None
    else
      var s :- Opened(b[3..|b| - 3]);
      var content :- Undented(JoinFrom(NormalizeFrom(s, 0), 0));
      Resolved(content)
  }

  // ----- indentation is undone -----

  /** Valid text without a newline. */
  predicate LineFrom(s: Bytes, i: nat)
    requires i <= |s|
    decreases |s| - i
  {
    i == |s| || (!Malformed(s, i) && !IsNewline(DecodeAt(s, i).c) && LineFrom(s, i + DecodeAt(s, i).size))
  }

  predicate AllLines(lines: seq<Bytes>) {
    forall l :: l in lines ==> LineFrom(l, 0)
  }

  predicate IsBreak(nl: Bytes) { nl == [LF] || nl == [0x0D, LF] }

  /** The lines, each indented and ended by a newline, and the closing line. */
  function Indented(lines: seq<Bytes>, prefix: Bytes, nl: Bytes): Bytes {
    if lines == [] then prefix else prefix + lines[0] + nl + Indented(lines[1..], prefix, nl)
  }

  function RawLiteral(lines: seq<Bytes>, prefix: Bytes, hashes: nat, nl: Bytes): Bytes {
    Repeat('#' as int, hashes) + TRIPLE + nl + Indented(lines, prefix, nl) + TRIPLE + Repeat('#' as int, hashes)
  }

  /** A line as it comes back: a line of whitespace comes back empty. */
  function BlankEmptied(line: Bytes): Bytes
  {
    if BlankFrom(line, 0) then [] else line
  }

  function BlanksEmptied(lines: seq<Bytes>): (r: seq<Bytes>)
    ensures |r| == |lines|
  {
    if lines == [] then [] else [BlankEmptied(lines[0])] + BlanksEmptied(lines[1..])
  }

  function Rows(lines: seq<Bytes>, prefix: Bytes): (r: seq<Bytes>)
    ensures |r| == |lines|
  {
    if lines == [] then [] else [prefix + lines[0]] + Rows(lines[1..], prefix)
  }

  lemma {:induction false} BlankIsLine(s: Bytes, i: nat)
    requires i <= |s| && BlankFrom(s, i)
    ensures LineFrom(s, i)
    decreases |s| - i
  {
    if i < |s| { BlankIsLine(s, i + DecodeAt(s, i).size); }
  }

  lemma NoNewlineInside(t: Bytes, j: nat)
    requires j < |t| && (0x80 <= t[j] <= 0xBF || !IsNewline(DecodeAt(t, j).c))
    ensures NewlineAt(t, j) == 0
  {}

  /** A line that occurs in t has no newline there. */
  lemma {:induction false} LineHasNoNewline(x: Bytes, i: nat, t: Bytes, j: nat)
    requires Occurs(x, i, t, j) && LineFrom(x, i)
    ensures forall m :: j <= m < j + (|x| - i) ==> NewlineAt(t, m) == 0
    decreases |x| - i
  {
    hide DecodeAt, NewlineAt;
    if i < |x| {
      OccursNext(x, i, t, j);
      var n := DecodeAt(x, i).size;
      LineHasNoNewline(x, i + n, t, j + n);
      forall m | j <= m < j + n ensures NewlineAt(t, m) == 0 {
        NoNewlineInside(t, m);
      }
    }
  }

  lemma {:induction false} NormalizeCopies(t: Bytes, j: nat, k: nat)
    requires j <= k <= |t| && forall m :: j <= m < k ==> NewlineAt(t, m) == 0
    ensures NormalizeFrom(t, j) == t[j..k] + NormalizeFrom(t, k)
    decreases k - j
  {
    hide NewlineAt;
    if j < k {
      NormalizeCopies(t, j + 1, k);
      assert t[j..k] == [t[j]] + t[j + 1..k];
      Assoc([t[j]], t[j + 1..k], NormalizeFrom(t, k));
    } else {
      assert t[j..k] == [];
    }
  }

  lemma LineIsCopied(x: Bytes, t: Bytes, j: nat)
    requires j + |x| <= |t| && t[j..j + |x|] == x && LineFrom(x, 0)
    ensures NormalizeFrom(t, j) == x + NormalizeFrom(t, j + |x|)
  {
    assert x[0..] == x;
    LineHasNoNewline(x, 0, t, j);
    NormalizeCopies(t, j, j + |x|);
  }

  lemma BreakBecomesLF(nl: Bytes, t: Bytes, j: nat)
    requires IsBreak(nl) && j + |nl| <= |t| && t[j..j + |nl|] == nl
    ensures NewlineAt(t, j) == |nl| && NormalizeFrom(t, j) == [LF] + NormalizeFrom(t, j + |nl|)
  {
    assert t[j] == t[j..j + |nl|][0];
    if |nl| == 2 { assert t[j + 1] == t[j..j + |nl|][1]; }
    AsciiDecodes(t, j);
  }

  /** Where t[j..] is x + rest, x is at j and rest behind it. */
  lemma Behind(x: Bytes, t: Bytes, j: nat, rest: Bytes)
    requires j <= |t| && t[j..] == x + rest
    ensures j + |x| <= |t| && t[j..j + |x|] == x && t[j + |x|..] == rest
  {
    assert t[j..j + |x|] == t[j..][..|x|];
    assert t[j + |x|..] == t[j..][|x|..];
  }

  /** Normalization turns the indented text into the rows and the closing line, joined by LF. */
  lemma {:induction false} NormalizeIndented(lines: seq<Bytes>, prefix: Bytes, nl: Bytes, t: Bytes, j: nat)
    requires AllLines(lines) && BlankFrom(prefix, 0) && IsBreak(nl)
    requires j <= |t| && t[j..] == Indented(lines, prefix, nl)
    ensures NormalizeFrom(t, j) == JoinLines(Rows(lines, prefix) + [prefix])
    decreases |lines|
  {
    hide NewlineAt, NormalizeFrom, BlankFrom, LineFrom;
    BlankIsLine(prefix, 0);
    if lines == [] {
      assert prefix + [] == prefix;
      Behind(prefix, t, j, []);
      LineIsCopied(prefix, t, j);
      NormalizedEnd(t);
      assert Rows(lines, prefix) + [prefix] == [prefix];
    } else {
      var line, rest := lines[0], Indented(lines[1..], prefix, nl);
      Assoc(prefix, line, nl);
      Assoc(prefix, line + nl, rest);
      Behind(prefix, t, j, line + nl + rest);
      var j1 := j + |prefix|;
      Assoc(line, nl, rest);
      Behind(line, t, j1, nl + rest);
      var j2 := j1 + |line|;
      Behind(nl, t, j2, rest);
      LineIsCopied(prefix, t, j);
      LineIsCopied(line, t, j1);
      BreakBecomesLF(nl, t, j2);
      NormalizeIndented(lines[1..], prefix, nl, t, j2 + |nl|);
      var more := Rows(lines[1..], prefix) + [prefix];
      assert Rows(lines, prefix) + [prefix] == [prefix + line] + more;
      JoinCons(prefix + line, more);
      Reassociate(prefix, line, JoinLines(more));
    }
  }

  lemma NormalizedEnd(t: Bytes)
    ensures NormalizeFrom(t, |t|) == []
  {}

  lemma Reassociate(p: Bytes, l: Bytes, rest: Bytes)
    ensures p + (l + ([LF] + rest)) == p + l + [LF] + rest
  {}

  lemma JoinCons(first: Bytes, more: seq<Bytes>)
    requires more != []
    ensures JoinLines([first] + more) == first + [LF] + JoinLines(more)
  {
    assert ([first] + more)[1..] == more;
  }

  lemma {:induction false} JoinSnoc(rows: seq<Bytes>, last: Bytes)
    requires rows != []
    ensures JoinLines(rows + [last]) == JoinLines(rows) + [LF] + last
  {
    if |rows| == 1 {
      JoinCons(rows[0], [last]);
      assert rows + [last] == [rows[0]] + [last];
    } else {
      JoinSnoc(rows[1..], last);
      assert rows + [last] == [rows[0]] + (rows[1..] + [last]);
      JoinCons(rows[0], rows[1..] + [last]);
      JoinCons(rows[0], rows[1..]);
      assert rows == [rows[0]] + rows[1..];
      Assoc(rows[0] + [LF], JoinLines(rows[1..]), [LF] + last);
      Assoc(JoinLines(rows[1..]), [LF], last);
      Assoc(JoinLines(rows), [LF], last);
    }
  }

  predicate FreeOfLF(s: Bytes) { forall k :: 0 <= k < |s| ==> s[k] != LF }

  lemma {:induction false} LineIsFreeOfLF(s: Bytes, i: nat)
    requires i <= |s| && LineFrom(s, i)
    ensures forall k :: i <= k < |s| ==> s[k] != LF
    decreases |s| - i
  {
    if i < |s| {
      AsciiDecodes(s, i);
      if s[i] >= 0x80 { HighBytes(s, i); }
      LineIsFreeOfLF(s, i + DecodeAt(s, i).size);
    }
  }

  lemma {:induction false} RowsAreFreeOfLF(lines: seq<Bytes>, prefix: Bytes)
    requires AllLines(lines) && BlankFrom(prefix, 0)
    ensures forall r :: r in Rows(lines, prefix) ==> FreeOfLF(r)
  {
    if lines != [] {
      BlankIsLine(prefix, 0);
      LineIsFreeOfLF(prefix, 0);
      LineIsFreeOfLF(lines[0], 0);
      RowsAreFreeOfLF(lines[1..], prefix);
    }
  }

  lemma {:induction false} SplitJoin(rows: seq<Bytes>)
    requires rows != [] && forall r :: r in rows ==> FreeOfLF(r)
    ensures Split(JoinLines(rows)) == rows
  {
    var s := JoinLines(rows);
    var k := FirstLF(s, 0);
    if |rows| == 1 {
      assert k == |s|;
    } else {
      var first := rows[0];
      assert s == first + [LF] + JoinLines(rows[1..]);
      assert s[|first|] == LF;
      assert k == |first| by {
        assert FreeOfLF(first);
      }
      assert s[..k] == first;
      assert s[k + 1..] == JoinLines(rows[1..]);
      SplitJoin(rows[1..]);
    }
  }

  lemma LastOfJoined(a: Bytes, last: Bytes)
    requires FreeOfLF(last)
    ensures LastLF(a + [LF] + last, |a + [LF] + last|) == Some(|a|)
  {
    var s := a + [LF] + last;
    var k := LastLF(s, |s|);
    assert s[|a|] == LF;
    assert forall m :: |a| < m < |s| ==> s[m] == last[m - |a| - 1];
  }

  /** Whether an indented line is blank depends on the line alone. */
  lemma {:induction false} IndentKeepsBlank(prefix: Bytes, i: nat, line: Bytes)
    requires i <= |prefix| && BlankFrom(prefix, i) && LineFrom(line, 0)
    ensures BlankFrom(prefix + line, i) <==> BlankFrom(line, 0)
    decreases |prefix| - i
  {
    var t := prefix + line;
    if i < |prefix| {
      assert t[i..i + DecodeAt(prefix, i).size] == prefix[i..i + DecodeAt(prefix, i).size];
      DecodeLocal(prefix, i, t, i);
      IndentKeepsBlank(prefix, i + DecodeAt(prefix, i).size, line);
    } else {
      assert t[i..i + |line|] == line[0..];
      BlankShift(line, 0, t, i);
    }
  }

  lemma {:induction false} BlankShift(x: Bytes, i: nat, t: Bytes, j: nat)
    requires Occurs(x, i, t, j) && j + (|x| - i) == |t| && LineFrom(x, i)
    ensures BlankFrom(t, j) <==> BlankFrom(x, i)
    decreases |x| - i
  {
    hide DecodeAt;
    if i < |x| {
      OccursNext(x, i, t, j);
      var n := DecodeAt(x, i).size;
      BlankShift(x, i + n, t, j + n);
    }
  }

  lemma {:induction false} RowsDedent(lines: seq<Bytes>, prefix: Bytes)
    requires AllLines(lines) && BlankFrom(prefix, 0)
    ensures DedentAll(Rows(lines, prefix), prefix) == Some(BlanksEmptied(lines))
  {
    if lines != [] {
      var row := prefix + lines[0];
      IndentKeepsBlank(prefix, 0, lines[0]);
      assert row[|prefix|..] == lines[0];
      RowsDedent(lines[1..], prefix);
      assert Rows(lines, prefix)[1..] == Rows(lines[1..], prefix);
    }
  }

  /** Joined rows and a closing line give back the settled lines. */
  lemma UndentRows(lines: seq<Bytes>, prefix: Bytes)
    requires lines != [] && AllLines(lines) && BlankFrom(prefix, 0)
    ensures Undented(JoinLines(Rows(lines, prefix) + [prefix])) == Some(JoinLines(BlanksEmptied(lines)))
  {
    var rows := Rows(lines, prefix);
    var a := JoinLines(rows);
    var s := JoinLines(rows + [prefix]);
    JoinSnoc(rows, prefix);
    BlankIsLine(prefix, 0);
    LineIsFreeOfLF(prefix, 0);
    LastOfJoined(a, prefix);
    assert s[|a| + 1..] == prefix;
    assert s[..|a|] == a;
    RowsAreFreeOfLF(lines, prefix);
    SplitJoin(rows);
    RowsDedent(lines, prefix);
  }

  lemma {:induction false} HashesThenQuote(s: Bytes, i: nat, n: nat)
    requires i + n < |s| && s[i + n] == QUOTE && forall k :: i <= k < i + n ==> s[k] == '#' as int
    ensures LeadingHashes(s, i) == n
    decreases n
  {
    if n > 0 { HashesThenQuote(s, i + 1, n - 1); }
  }

  /** The delimiters of a raw literal are found, and its text is between them. */
  lemma DelimitersComeOff(text: Bytes, hashes: nat)
    ensures var b := Repeat('#' as int, hashes) + TRIPLE + text + TRIPLE + Repeat('#' as int, hashes);
      LeadingHashes(b, 0) == hashes && |b| == |text| + 2 * (hashes + 3) && b[hashes + 3..|b| - (hashes + 3)] == text
  {
    var h := Repeat('#' as int, hashes);
    var b := h + TRIPLE + text + TRIPLE + h;
    assert b[hashes] == QUOTE;
    assert forall k :: 0 <= k < hashes ==> b[k] == h[k];
    HashesThenQuote(b, 0, hashes);
  }

  /**
   * An indented raw literal reads back as its lines joined by LF, except that lines of whitespace come back empty:
   * for all lines, indentations, hash counts and both newlines.
   */
  lemma RawLiteralReadsBack(lines: seq<Bytes>, prefix: Bytes, hashes: nat, nl: Bytes)
    requires lines != [] && AllLines(lines) && BlankFrom(prefix, 0) && IsBreak(nl)
    ensures RawText(RawLiteral(lines, prefix, hashes, nl)) == Some(JoinLines(BlanksEmptied(lines)))
  {
    hide Undented, NormalizeFrom, BlankFrom;
    var body := Indented(lines, prefix, nl);
    var text := nl + body;
    var b := RawLiteral(lines, prefix, hashes, nl);
    DelimitersComeOff(text, hashes);
    assert b == Repeat('#' as int, hashes) + TRIPLE + text + TRIPLE + Repeat('#' as int, hashes);
    assert text[0..|nl|] == nl;
    BreakBecomesLF(nl, text, 0);
    assert text[|nl|..] == body;
    assert body[0..] == body;
    NormalizeIndented(lines, prefix, nl, body, 0);
    UndentRows(lines, prefix);
  }

  lemma {:induction false} SettledLength(lines: seq<Bytes>)
    requires lines != []
    ensures |JoinLines(BlanksEmptied(lines))| <= |JoinLines(lines)|
    ensures |JoinLines(BlanksEmptied(lines))| == |JoinLines(lines)| <==> BlanksEmptied(lines) == lines
  {
    if |lines| > 1 {
      SettledLength(lines[1..]);
      assert BlanksEmptied(lines)[1..] == BlanksEmptied(lines[1..]);
      assert lines == [lines[0]] + lines[1..];
    }
  }

  /** Every line of whitespace is empty. */
  predicate NoBlankLine(lines: seq<Bytes>) {
    forall k :: 0 <= k < |lines| && BlankFrom(lines[k], 0) ==> lines[k] == []
  }

  lemma {:induction false} SettledIsSame(lines: seq<Bytes>)
    ensures BlanksEmptied(lines) == lines <==> NoBlankLine(lines)
  {
    if lines != [] {
      var head, tail := lines[0], lines[1..];
      SettledIsSame(tail);
      assert lines == [head] + tail;
      assert BlanksEmptied(lines) == lines <==> BlankEmptied(head) == head && BlanksEmptied(tail) == tail by {
        if BlanksEmptied(lines) == lines {
          assert BlanksEmptied(tail) == BlanksEmptied(lines)[1..];
          assert BlanksEmptied(lines)[0] == BlankEmptied(head);
        }
      }
      assert NoBlankLine(lines) ==> NoBlankLine(tail) by {
        assert forall k :: 0 <= k < |tail| ==> tail[k] == lines[k + 1];
      }
    }
  }

  /** The literal reads back as exactly its lines if and only if no line that is not empty is whitespace only. */
  lemma RawLiteralIsExactUnlessBlank(lines: seq<Bytes>, prefix: Bytes, hashes: nat, nl: Bytes)
    requires lines != [] && AllLines(lines) && BlankFrom(prefix, 0) && IsBreak(nl)
    ensures RawText(RawLiteral(lines, prefix, hashes, nl)) == Some(JoinLines(lines)) <==> NoBlankLine(lines)
  {
    hide RawText, RawLiteral;
    RawLiteralReadsBack(lines, prefix, hashes, nl);
    SettledLength(lines);
    SettledIsSame(lines);
  }

  // ----- quoted and raw -----

  lemma {:induction false} NoBackslashAfterNormalizing(s: Bytes, i: nat)
    requires i <= |s| && Without(s, i, |s|)
    ensures BACKSLASH !in NormalizeFrom(s, i)
    decreases |s| - i
  {
    hide NewlineAt;
    if i < |s| {
      NoBackslashAfterNormalizing(s, if NewlineAt(s, i) > 0 then i + NewlineAt(s, i) else i + 1);
    }
  }

  lemma {:induction false} SplitKeeps(s: Bytes, c: Byte)
    requires c !in s
    ensures forall l :: l in Split(s) ==> c !in l
    decreases |s|
  {
    var k := FirstLF(s, 0);
    if k < |s| { SplitKeeps(s[k + 1..], c); }
  }

  lemma {:induction false} DedentKeeps(lines: seq<Bytes>, prefix: Bytes, c: Byte)
    requires forall l :: l in lines ==> c !in l
    ensures var r := DedentAll(lines, prefix); r.Some? ==> forall l :: l in r.value ==> c !in l
  {
    if lines != [] {
      DedentKeeps(lines[1..], prefix, c);
      assert lines[0] in lines;
      assert forall k :: 0 <= k < |lines[0]| ==> lines[0][k] in lines[0];
    }
  }

  lemma {:induction false} JoinKeeps(lines: seq<Bytes>, c: Byte)
    requires c != LF && forall l :: l in lines ==> c !in l
    ensures c !in JoinLines(lines)
  {
    if |lines| > 1 { JoinKeeps(lines[1..], c); }
  }

  lemma UndentKeeps(t: Bytes, c: Byte)
    requires c != LF && c !in t
    ensures Undented(t).Some? ==> c !in Undented(t).value
  {
    hide Split, DedentAll, JoinLines, BlankFrom;
    var last := LastLF(t, |t|);
    if last.Some? {
      var head, prefix := t[..last.value], t[last.value + 1..];
      SplitKeeps(head, c);
      DedentKeeps(Split(head), prefix, c);
      var d := DedentAll(Split(head), prefix);
      if d.Some? { JoinKeeps(d.value, c); }
    }
  }

  /** A text without backslashes means the same in triple quotes with and without hashes. */
  lemma QuotedAgreesWithRaw(text: Bytes, hashes: nat)
    requires BACKSLASH !in text
    ensures QuotedText(TRIPLE + text + TRIPLE) ==
      RawText(Repeat('#' as int, hashes) + TRIPLE + text + TRIPLE + Repeat('#' as int, hashes))
  {
    hide NormalizeFrom, JoinFrom, ResolveFrom, Undented;
    DelimitersComeOff(text, hashes);
    var q := TRIPLE + text + TRIPLE;
    assert q[..3] == TRIPLE && q[|q| - 3..] == TRIPLE && q[3..|q| - 3] == text;
    var s := Opened(text);
    if s.Some? {
      NoBackslashAfterNormalizing(s.value, 0);
      var t := NormalizeFrom(s.value, 0);
      JoinCopies(t, 0, |t|);
      JoinNothing(t);
      assert t[0..|t|] + [] == t;
      UndentKeeps(t, BACKSLASH);
    }
  }
}
