// Exactly which multi-line raw strings can be read, and as what, row by row.
module MultilineRows {
  import opened Basics
  import opened Utf8
  import opened Multiline

  /** The rows, each ended by a newline, and the closing line. */
  function Written(rows: seq<Bytes>, closing: Bytes, nl: Bytes): Bytes {
    if rows == [] then closing else rows[0] + nl + Written(rows[1..], closing, nl)
  }

  /** The row is nothing but whitespace, or indented as the closing line is. */
  predicate MayStand(row: Bytes, closing: Bytes) { BlankFrom(row, 0) || closing <= row }

  /** What is behind the indentation; nothing of a row of whitespace. */
  function Outdented(row: Bytes, closing: Bytes): Bytes
    requires MayStand(row, closing)
  {
    if BlankFrom(row, 0) then [] else row[|closing|..]
  }

  function AllOutdented(rows: seq<Bytes>, closing: Bytes): (r: seq<Bytes>)
    requires forall k :: 0 <= k < |rows| ==> MayStand(rows[k], closing)
    ensures |r| == |rows| && forall k :: 0 <= k < |rows| ==> r[k] == Outdented(rows[k], closing)
  {
    seq(|rows|, k requires 0 <= k < |rows| => Outdented(rows[k], closing))
  }

  lemma {:induction false} RowsNormalize(rows: seq<Bytes>, closing: Bytes, nl: Bytes, t: Bytes, j: nat)
    requires AllLines(rows) && LineFrom(closing, 0) && IsBreak(nl) && j <= |t| && t[j..] == Written(rows, closing, nl)
    ensures NormalizeFrom(t, j) == JoinLines(rows + [closing])
    decreases |rows|
  {
    hide NormalizeFrom, LineFrom;
    if rows == [] {
      assert closing + [] == closing;
      Behind(closing, t, j, []);
      LineIsCopied(closing, t, j);
      NormalizedEnd(t);
      assert rows + [closing] == [closing];
    } else {
      var rest := Written(rows[1..], closing, nl);
      Assoc(rows[0], nl, rest);
      Behind(rows[0], t, j, nl + rest);
      var k := j + |rows[0]|;
      Behind(nl, t, k, rest);
      LineIsCopied(rows[0], t, j);
      BreakBecomesLF(nl, t, k);
      RowsNormalize(rows[1..], closing, nl, t, k + |nl|);
      assert rows + [closing] == [rows[0]] + (rows[1..] + [closing]);
      JoinCons(rows[0], rows[1..] + [closing]);
      assert rows[0] + ([LF] + JoinLines(rows[1..] + [closing])) == rows[0] + [LF] + JoinLines(rows[1..] + [closing]);
    }
  }

  lemma {:induction false} DedentsExactly(rows: seq<Bytes>, closing: Bytes)
    ensures var ok := forall k :: 0 <= k < |rows| ==> MayStand(rows[k], closing);
      DedentAll(rows, closing) == if ok then Some(AllOutdented(rows, closing)) else None
  {
    hide BlankFrom;
    if rows != [] {
      var rest := rows[1..];
      DedentsExactly(rest, closing);
      assert forall k :: 0 <= k < |rest| ==> rest[k] == rows[k + 1];
      if DedentLine(rows[0], closing).Some? && DedentAll(rest, closing).Some? {
        assert forall k :: 0 <= k < |rows| ==> MayStand(rows[k], closing) by {
          forall k | 0 <= k < |rows| ensures MayStand(rows[k], closing) { if k > 0 { assert MayStand(rest[k - 1], closing); } }
        }
        assert AllOutdented(rows, closing) == [Outdented(rows[0], closing)] + AllOutdented(rest, closing);
      }
    }
  }

  lemma LinesAreFree(rows: seq<Bytes>)
    requires AllLines(rows)
    ensures forall r :: r in rows ==> FreeOfLF(r)
  {
    hide LineFrom;
    forall r | r in rows ensures FreeOfLF(r) { LineIsFreeOfLF(r, 0); }
  }

  /** What is read of the text behind the first newline. */
  lemma RowsUndent(rows: seq<Bytes>, closing: Bytes)
    requires AllLines(rows) && LineFrom(closing, 0)
    ensures var ok := BlankFrom(closing, 0) && forall k :: 0 <= k < |rows| ==> MayStand(rows[k], closing);
      Undented(JoinLines(rows + [closing])) == if ok then Some(JoinLines(AllOutdented(rows, closing))) else None
  {
    hide BlankFrom, LineFrom, MayStand;
    LineIsFreeOfLF(closing, 0);
    if rows == [] {
      assert rows + [closing] == [closing];
      NoLastLF(closing);
    } else {
      var a := JoinLines(rows);
      JoinSnoc(rows, closing);
      var s := a + [LF] + closing;
      LastOfJoined(a, closing);
      assert s[|a| + 1..] == closing && s[..|a|] == a;
      LinesAreFree(rows);
      SplitJoin(rows);
      DedentsExactly(rows, closing);
    }
  }

  lemma NoLastLF(s: Bytes)
    requires FreeOfLF(s)
    ensures LastLF(s, |s|) == None
  {}

  /**
   * Main result: a multi-line raw string can be read exactly if its closing line is whitespace and every row is whitespace or
   * begins with the closing line; it is the rows without that beginning, those of whitespace empty, joined by LF. Without a
   * newline behind the opening delimiter it cannot be read.
   */
  lemma RawMeansExactly(rows: seq<Bytes>, closing: Bytes, hashes: nat, nl: Bytes)
    requires AllLines(rows) && LineFrom(closing, 0) && IsBreak(nl)
    ensures var h := Repeat('#' as int, hashes); var ok := BlankFrom(closing, 0) && forall k :: 0 <= k < |rows| ==> MayStand(rows[k], closing);
      RawText(h + TRIPLE + (nl + Written(rows, closing, nl)) + TRIPLE + h) == if ok then Some(JoinLines(AllOutdented(rows, closing))) else None
  {
    hide Undented, NormalizeFrom, BlankFrom, LineFrom, MayStand;
    var body := Written(rows, closing, nl);
    var text := nl + body;
    DelimitersComeOff(text, hashes);
    assert text[0..|nl|] == nl;
    BreakBecomesLF(nl, text, 0);
    assert text[|nl|..] == body && body[0..] == body;
    RowsNormalize(rows, closing, nl, body, 0);
    RowsUndent(rows, closing);
  }

  /** Text behind the opening delimiter, on its line, makes the string unreadable; so does a closing delimiter that is cut off. */
  lemma OpeningLineIsEmpty(text: Bytes, hashes: nat, b: Bytes)
    requires text == [] || !IsNewline(DecodeAt(text, 0).c)
    ensures var h := Repeat('#' as int, hashes); RawText(h + TRIPLE + text + TRIPLE + h) == None
    ensures QuotedText(TRIPLE + text + TRIPLE) == None
    ensures |b| < 2 * (LeadingHashes(b, 0) + 3) ==> RawText(b) == None
    ensures |b| < 6 || b[..3] != TRIPLE || b[|b| - 3..] != TRIPLE ==> QuotedText(b) == None
  {
    DelimitersComeOff(text, hashes);
    var q := TRIPLE + text + TRIPLE;
    assert q[..3] == TRIPLE && q[|q| - 3..] == TRIPLE && q[3..|q| - 3] == text;
    hide Undented, NormalizeFrom;
  }
}
