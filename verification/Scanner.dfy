// The scanner as it runs: a cursor over a buffer held in memory, a two-rune lookahead cache and a stack of marks.
module Scanning {
  import opened Basics
  import opened Tokens
  import opened Utf8
  import opened Lexer

  datatype Peeked = Peeked(c: Rune, size: nat)

  /** The next two runes, or why there are not two. */
  datatype Two = Two(c1: Rune, size1: nat, c2: Rune, size2: nat) | NotTwo(why: Peek)

  function TwoAt(s: Bytes, i: nat): Two
    requires i <= |s|
  {
    match PeekAt(s, i)
    case Rune(c1, size1) => (
      match PeekAt(s, i + size1)
      case Rune(c2, size2) => Two(c1, size1, c2, size2)
      case p => NotTwo(p))
    case p => NotTwo(p)
  }

  /** What a reading method returns: a value, the end of the input, or any other error. */
  datatype Read<+T> = Got(value: T) | End | Error

  /** The cache agrees with the buffer. */
  predicate Cached(s: Bytes, i: nat, cache: seq<Peeked>) {
    && i <= |s|
    && |cache| <= 2
    && (|cache| > 0 ==> PeekAt(s, i) == Rune(cache[0].c, cache[0].size))
    && (|cache| > 1 ==> PeekAt(s, i + cache[0].size) == Rune(cache[1].c, cache[1].size))
  }

  function Slice(s: Bytes, i: nat, end: Option<nat>): (r: Option<Bytes>)
    requires end.Some? ==> i <= end.value <= |s|
  {
    if end.Some? then Some(s[i..end.value]) else None
  }

  /** What is read when a token lies at source[from..]. */
  function Reading(s: Bytes, from: nat, r: Lexed): Read<Token>
    requires r.Lexed? ==> from <= r.end <= |s|
  {
    match r
    case LexEof => End
    case LexError => Error
    case Lexed(id, end, whole) => Got(Token(id, if whole then s[from..end] else [], from))
  }

  function Prepend(ts: seq<Token>, scan: Scan): Scan {
    match scan case Failed => Failed case Scanned(more, stop) => Scanned(ts + more, stop)
  }

  class Scanner {
    const raw: Bytes
    var pos: nat
    var peeked: seq<Peeked>
    var marks: seq<nat>
    var bomChecked: bool

    predicate Valid()
      reads this
    {
      pos <= |raw| && Cached(raw, pos, peeked)
    }

    constructor (input: Bytes)
      ensures Valid() && raw == input && pos == 0 && marks == [] && !bomChecked
    {
      raw := input;
      pos := 0;
      peeked := [];
      marks := [];
      bomChecked := false;
    }

    method PeekSize() returns (p: Peek)
      requires Valid()
      modifies `peeked
      ensures Valid()
      ensures p == PeekAt(raw, pos)
      ensures p.Rune? ==> |peeked| > 0
    {
      if |peeked| == 0 {
        var d := DecodeAt(raw, pos);
        if d.size == 0 { return AtEof; }
        if d.c == RUNE_ERROR { return Invalid; }
        peeked := [Peeked(d.c, d.size)];
        return Rune(d.c, d.size);
      }
      return Rune(peeked[0].c, peeked[0].size);
    }

    method PeekTwoSize() returns (t: Two)
      requires Valid()
      modifies `peeked
      ensures Valid()
      ensures t == TwoAt(raw, pos)
    {
      var size := if |peeked| == 1 then peeked[0].size else 0;
      while |peeked| < 2
        invariant Valid()
        invariant |peeked| == 0 ==> size == 0
        invariant |peeked| == 1 ==> size == peeked[0].size
        decreases 2 - |peeked|
      {
        var d := DecodeAt(raw, pos + size);
        if d.size == 0 { return NotTwo(AtEof); }
        if d.c == RUNE_ERROR { return NotTwo(Invalid); }
        size := size + d.size;
        peeked := peeked + [Peeked(d.c, d.size)];
      }
      return Two(peeked[0].c, peeked[0].size, peeked[1].c, peeked[1].size);
    }

    method Get() returns (p: Peek)
      requires Valid()
      modifies `peeked, `pos
      ensures Valid()
      ensures p == PeekAt(raw, old(pos))
      ensures pos == if p.Rune? then old(pos) + p.size else old(pos)
    {
      var d := Decoded(0, 0);
      if |peeked| > 0 {
        d := Decoded(peeked[0].c, peeked[0].size);
        peeked := if |peeked| == 1 then [] else [peeked[1]];
      } else {
        d := DecodeAt(raw, pos);
        if d.size == 0 { return AtEof; }
        if d.c == RUNE_ERROR { return Invalid; }
      }
      pos := pos + d.size;
      return Rune(d.c, d.size);
    }

    method Skip()
      requires Valid()
      modifies `peeked, `pos
      ensures Valid()
      ensures var p := PeekAt(raw, old(pos)); pos == if p.Rune? then old(pos) + p.size else old(pos)
    {
      var _ := Get();
    }

    method PushMark()
      modifies `marks
      ensures marks == old(marks) + [pos]
    {
      marks := marks + [pos];
    }

    method PopMark()
      modifies `marks
      ensures marks == if old(marks) == [] then [] else old(marks)[..|old(marks)| - 1]
    {
      if |marks| > 0 {
        marks := marks[..|marks| - 1];
      }
    }

    method CopyFromMark() returns (r: Bytes)
      requires Valid() && marks != [] && marks[|marks| - 1] <= pos
      ensures r == raw[marks[|marks| - 1]..pos]
    {
      return raw[marks[|marks| - 1]..pos];
    }

    method ReadWhile(valid: Test, min: nat) returns (r: Option<Bytes>)
      requires Valid()
      modifies `peeked, `pos, `marks
      ensures Valid() && marks == old(marks)
      ensures pos == SkipWhile(raw, old(pos), 0, valid)
      ensures r == Slice(raw, old(pos), Lexer.ReadWhile(raw, old(pos), valid, min))
    {
      hide PeekAt, Cached;
      PushMark();
      ghost var from := pos;
      var n := 0;
      while true
        invariant Valid() && marks == old(marks) + [from] && from <= pos
        invariant n > 0 <==> from < pos
        invariant SkipWhile(raw, from, 0, valid) == SkipWhile(raw, pos, n, valid)
        decreases |raw| - pos
      {
        var p := PeekSize();
        if p.Invalid? {
          PopMark();
          return None;
        }
        if p.Rune? && valid(n, p.c) {
          Skip();
          n := n + 1;
        } else {
          if n == 0 {
            PopMark();
            return None;
          }
          var literal := CopyFromMark();
          PopMark();
          if |literal| < min { return None; }
          return Some(literal);
        }
      }
    }

    /** Stops before the first rune that stop accepts; the end of the input is no error to its only caller. */
    method ReadUntil(stop: Rune -> bool) returns (r: Option<Bytes>)
      requires Valid()
      modifies `peeked, `pos, `marks
      ensures Valid() && marks == old(marks)
      ensures pos == SkipUntil(raw, old(pos), stop)
      ensures r == if PeekAt(raw, pos).Invalid? then None else Some(raw[old(pos)..pos])
    {
      hide PeekAt, Cached;
      PushMark();
      ghost var from := pos;
      while true
        invariant Valid() && marks == old(marks) + [from] && from <= pos
        invariant SkipUntil(raw, from, stop) == SkipUntil(raw, pos, stop)
        decreases |raw| - pos
      {
        var p := PeekSize();
        if !p.Rune? {
          var literal := CopyFromMark();
          PopMark();
          return if p.AtEof? then Some(literal) else None;
        }
        if stop(p.c) {
          var literal := CopyFromMark();
          PopMark();
          return Some(literal);
        }
        Skip();
      }
    }

    method ReadMultiLineComment() returns (r: Option<Bytes>)
      requires Valid()
      modifies `peeked, `pos, `marks
      ensures Valid() && marks == old(marks)
      ensures r == Slice(raw, old(pos), Comment(raw, old(pos), 0))
      ensures r.Some? ==> Comment(raw, old(pos), 0) == Some(pos)
    {
      hide PeekAt, Cached;
      PushMark();
      ghost var from := pos;
      var depth := 0;
      while true
        invariant Valid() && marks == old(marks) + [from] && from <= pos
        invariant Comment(raw, from, 0) == Comment(raw, pos, depth)
        decreases |raw| - pos
      {
        var p := Get();
        if !p.Rune? {
          PopMark();
          return None;
        }
        if p.c == '*' as int {
          var next := PeekSize();
          if next.Rune? && next.c == '/' as int {
            depth := depth - 1;
            AsciiIsOne(raw, pos);
            Skip();
            if depth == 0 {
              var literal := CopyFromMark();
              PopMark();
              return Some(literal);
            }
          }
        } else if p.c == '/' as int {
          var next := PeekSize();
          if next.Rune? && next.c == '*' as int {
            depth := depth + 1;
            AsciiIsOne(raw, pos);
            Skip();
          }
        }
      }
    }

    method ReadQuotedString() returns (r: Option<(TokenID, Bytes)>)
      requires Valid() && At(raw, pos, '"' as int)
      modifies `peeked, `pos, `marks
      ensures Valid() && marks == old(marks)
      ensures Landed(raw, old(pos), QuotedText(raw, old(pos)), r, pos)
    {
      hide PeekAt, QuotedEnd, MultiQuotedEnd, DecodeAt, Cached;
      AsciiIsOne(raw, pos);
      ghost var from := pos;
      PushMark();
      Skip();
      var second := PeekSize();
      var two := PeekTwoSize();
      var data: Option<Bytes>;
      if second.Rune? && second.c == '"' as int && two.Two? && two.c2 == '"' as int {
        AsciiIsOne(raw, pos);
        AsciiIsOne(raw, pos + 1);
        Skip();
        Skip();
        data := ReadMultiQuoted();
        r := if data.Some? then Some((MultilineString, data.value)) else None;
      } else {
        AsciiIsOne(raw, pos);
        data := ReadQuoted();
        r := if data.Some? then Some((QuotedString, data.value)) else None;
      }
      PopMark();
    }

    /** The triple-quoted loop, from inside the string. */
    method ReadMultiQuoted() returns (r: Option<Bytes>)
      requires Valid() && marks != [] && marks[|marks| - 1] <= pos
      modifies `peeked, `pos
      ensures Valid()
      ensures r == Slice(raw, marks[|marks| - 1], MultiQuotedEnd(raw, old(pos), false, 0))
      ensures r.Some? ==> MultiQuotedEnd(raw, old(pos), false, 0) == Some(pos)
    {
      ghost var from := pos;
      var escaped, quotes := false, 0;
      while true
        invariant Valid() && from <= pos
        invariant MultiQuotedEnd(raw, from, false, 0) == MultiQuotedEnd(raw, pos, escaped, quotes)
        decreases |raw| - pos
      {
        var p := Get();
        if !p.Rune? { return None; }
        if escaped {
          escaped, quotes := false, 0;
        } else if p.c == '\\' as int {
          escaped, quotes := true, 0;
        } else if p.c == '"' as int {
          quotes := quotes + 1;
          if quotes >= 3 {
            var literal := CopyFromMark();
            return Some(literal);
          }
        } else {
          quotes := 0;
        }
      }
    }

    /** The single-line loop, from inside the string. */
    method ReadQuoted() returns (r: Option<Bytes>)
      requires Valid() && marks != [] && marks[|marks| - 1] <= pos
      modifies `peeked, `pos
      ensures Valid()
      ensures r == Slice(raw, marks[|marks| - 1], QuotedEnd(raw, old(pos), false))
      ensures r.Some? ==> QuotedEnd(raw, old(pos), false) == Some(pos)
    {
      ghost var from := pos;
      var escaped := false;
      while true
        invariant Valid() && from <= pos
        invariant QuotedEnd(raw, from, false) == QuotedEnd(raw, pos, escaped)
        decreases |raw| - pos
      {
        var p := Get();
        if !p.Rune? { return None; }
        if escaped {
          if IsNewline(p.c) || IsWhiteSpace(p.c) {
            SkipLineSpace();
          }
          escaped := false;
        } else if p.c == '\\' as int {
          escaped := true;
        } else if p.c == '"' as int {
          var literal := CopyFromMark();
          return Some(literal);
        } else if IsNewline(p.c) {
          return None;
        }
      }
    }

    /** A whitespace escape takes all the whitespace and newlines that follow. */
    method SkipLineSpace()
      requires Valid()
      modifies `peeked, `pos
      ensures Valid()
      ensures pos == SkipWhile(raw, old(pos), 0, LINE_SPACE)
    {
      hide PeekAt, Cached;
      ghost var from, n := pos, 0;
      while true
        invariant Valid() && from <= pos
        invariant SkipWhile(raw, from, 0, LINE_SPACE) == SkipWhile(raw, pos, n, LINE_SPACE)
        decreases |raw| - pos
      {
        var p := PeekSize();
        if !p.Rune? { return; }
        if !IsNewline(p.c) && !IsWhiteSpace(p.c) { return; }
        Skip();
        n := n + 1;
      }
    }

    method ReadBareIdentifier() returns (r: Option<Bytes>)
      requires Valid()
      modifies `peeked, `pos, `marks
      ensures Valid() && marks == old(marks)
      ensures r == Slice(raw, old(pos), BareWord(raw, old(pos)))
      ensures r.Some? ==> BareWord(raw, old(pos)) == Some(pos)
    {
      hide PeekAt, Cached, IsBareStart, IsBareChar, IsDigit, SkipWhile;
      var p := PeekSize();
      if !p.Rune? { return None; }
      var two := PeekTwoSize();
      if p.c == '+' as int || p.c == '-' as int {
        if two.Two? && IsDigit(two.c2) { return None; }
      } else {
        if !IsBareStart(p.c) { return None; }
        if p.c == '.' as int && two.Two? && IsDigit(two.c2) { return None; }
      }
      var literal := ReadWhile(BARE_CHARS, 1);
      if literal.None? || Reserved(literal.value) { return None; }
      return literal;
    }

    method ReadIdentifier() returns (r: Option<(TokenID, Bytes)>)
      requires Valid() && pos < |raw|
      modifies `peeked, `pos, `marks
      ensures Valid() && marks == old(marks)
      ensures Landed(raw, old(pos), Identifier(raw, old(pos)), r, pos)
    {
      hide PeekAt, Cached, IsBareStart, IsPunctuation, IsDigit, BareWord, QuotedText;
      var p := PeekSize();
      if !p.Rune? || p.c <= 0x20 || p.c > 0x10FFFF { return None; }
      if p.c == '"' as int {
        r := ReadQuotedString();
        return;
      }
      if IsPunctuation(p.c) { return None; }
      var two := PeekTwoSize();
      if two.Two? && !IsBareStart(p.c) && !(p.c == '-' as int && !IsDigit(two.c2)) { return None; }
      var literal := ReadBareIdentifier();
      if literal.None? { return None; }
      if literal.value == ['r' as int] {
        var next := PeekSize();
        if next.Rune? && (next.c == '"' as int || next.c == '#' as int) { return None; }
      }
      return Some((BareIdentifier, literal.value));
    }

    method ReadInteger() returns (r: Option<Bytes>)
      requires Valid()
      modifies `peeked, `pos, `marks
      ensures Valid() && marks == old(marks) && old(pos) <= pos
      ensures r == Slice(raw, old(pos), Integer(raw, old(pos)))
      ensures r.Some? ==> Integer(raw, old(pos)) == Some(pos)
    {
      r := ReadWhile(DIGITS_AND_UNDERSCORES, 1);
    }

    method ReadSignedInteger() returns (r: Read<Bytes>)
      requires Valid()
      modifies `peeked, `pos, `marks
      ensures Valid() && marks == old(marks)
      ensures old(pos) <= pos
      ensures r.End? <==> old(pos) == |raw|
      ensures old(pos) < |raw| ==> (r.Got? <==> SignedInteger(raw, old(pos)).Some?)
      ensures r.Got? ==> SignedInteger(raw, old(pos)) == Some(pos) && r.value == raw[old(pos)..pos]
    {
      hide PeekAt, Cached;
      ghost var from := pos;
      PushMark();
      var p := PeekSize();
      if !p.Rune? {
        PopMark();
        return if p.AtEof? then End else Error;
      }
      if p.c == '+' as int || p.c == '-' as int {
        AsciiIsOne(raw, pos);
        Skip();
      }
      var digits := ReadInteger();
      if digits.None? {
        PopMark();
        return Error;
      }
      var literal := CopyFromMark();
      PopMark();
      return Got(literal);
    }

    /** The fraction and the exponent after the integer part. */
    method ReadFractionAndExponent() returns (r: Read<()>)
      requires Valid()
      modifies `peeked, `pos, `marks
      ensures Valid() && marks == old(marks) && old(pos) <= pos
      ensures AfterInteger(raw, old(pos), r, pos)
    {
      hide PeekAt, Cached, Integer, SignedInteger;
      var p := PeekSize();
      if p.Rune? {
        if p.c == '.' as int {
          AsciiIsOne(raw, pos);
          Skip();
          var digits := ReadInteger();
          if digits.None? { return Error; }
        }
        p := PeekSize();
        if p.Rune? && (p.c == 'e' as int || p.c == 'E' as int) {
          AsciiIsOne(raw, pos);
          Skip();
          var exponent := ReadSignedInteger();
          if !exponent.Got? { return if exponent.End? then End else Error; }
        }
      }
      return Got(());
    }

    method ReadDecimal() returns (r: Read<Bytes>)
      requires Valid() && pos < |raw|
      modifies `peeked, `pos, `marks
      ensures Valid() && marks == old(marks)
      ensures ReadsAs(raw, old(pos), DecimalNumber(raw, old(pos)), r, pos)
    {
      hide PeekAt, Cached, IsSeparator, SignedInteger;
      ghost var from := pos;
      PushMark();
      var whole := ReadSignedInteger();
      if !whole.Got? {
        PopMark();
        return Error;
      }
      var rest := ReadFractionAndExponent();
      if !rest.Got? {
        PopMark();
        return if rest.End? then End else Error;
      }
      var p := PeekSize();
      if p.Rune? && !IsSeparator(p.c) {
        PopMark();
        return Error;
      }
      var literal := CopyFromMark();
      PopMark();
      return Got(literal);
    }

    method ReadNumericBase(id: TokenID) returns (r: Option<Bytes>)
      requires Valid()
      modifies `peeked, `pos, `marks
      ensures Valid() && marks == old(marks)
      ensures r == Slice(raw, old(pos), NumericBase(raw, old(pos), id))
      ensures r.Some? ==> NumericBase(raw, old(pos), id) == Some(pos)
    {
      var lit := ReadWhile(AfterPrefix(id), 3);
      if lit.None? || lit.value[2] == '_' as int { return None; }
      var p := PeekSize();
      if p.Rune? && !IsWhiteSpace(p.c) && !IsNewline(p.c) { return None; }
      return lit;
    }

    /** Counts the '#'s at the cursor; none when something unreadable or the end follows them. */
    method ReadHashes() returns (n: Option<nat>)
      requires Valid()
      modifies `peeked, `pos
      ensures Valid()
      ensures n.Some? ==> n.value == Hashes(raw, old(pos), |raw| - old(pos)) && pos == old(pos) + n.value
      ensures n.Some? <==> PeekAt(raw, pos).Rune?
      ensures pos == old(pos) + Hashes(raw, old(pos), |raw| - old(pos))
    {
      hide PeekAt, Cached;
      ghost var from := pos;
      var count := 0;
      while true
        invariant Valid() && pos == from + count
        invariant Hashes(raw, from, |raw| - from) == count + Hashes(raw, pos, |raw| - pos)
        decreases |raw| - pos
      {
        var p := PeekSize();
        if !p.Rune? { return None; }
        if p.c != '#' as int { return Some(count); }
        AsciiIsOne(raw, pos);
        Skip();
        count := count + 1;
      }
    }

    /** Takes up to max '#'s. */
    method MatchHashes(max: nat) returns (matched: nat)
      requires Valid()
      modifies `peeked, `pos
      ensures Valid()
      ensures matched == Hashes(raw, old(pos), max) && pos == old(pos) + matched
    {
      hide PeekAt, Cached;
      ghost var from := pos;
      matched := 0;
      while matched < max
        invariant Valid() && pos == from + matched && matched <= max
        invariant Hashes(raw, from, max) == matched + Hashes(raw, pos, max - matched)
      {
        var p := PeekSize();
        if !p.Rune? || p.c != '#' as int { return; }
        AsciiIsOne(raw, pos);
        Skip();
        matched := matched + 1;
      }
    }

    method ReadRaw(hashes: nat) returns (r: Option<Bytes>)
      requires Valid() && marks != [] && marks[|marks| - 1] <= pos
      modifies `peeked, `pos
      ensures Valid()
      ensures r == Slice(raw, marks[|marks| - 1], Raw(raw, old(pos), hashes))
      ensures r.Some? ==> Raw(raw, old(pos), hashes) == Some(pos)
    {
      hide PeekAt, Cached, Hashes;
      ghost var from := pos;
      while true
        invariant Valid() && from <= pos
        invariant Raw(raw, from, hashes) == Raw(raw, pos, hashes)
        decreases |raw| - pos
      {
        var p := Get();
        if !p.Rune? { return None; }
        if p.c == '"' as int {
          var matched := MatchHashes(hashes);
          if matched == hashes {
            var literal := CopyFromMark();
            return Some(literal);
          }
        }
        if IsNewline(p.c) { return None; }
      }
    }

    method ReadMultiRaw(hashes: nat) returns (r: Option<Bytes>)
      requires Valid() && marks != [] && marks[|marks| - 1] <= pos
      modifies `peeked, `pos
      ensures Valid()
      ensures r == Slice(raw, marks[|marks| - 1], MultiRaw(raw, old(pos), 0, hashes))
      ensures r.Some? ==> MultiRaw(raw, old(pos), 0, hashes) == Some(pos)
    {
      hide PeekAt, Cached, Hashes;
      ghost var from := pos;
      var quotes := 0;
      while true
        invariant Valid() && from <= pos
        invariant MultiRaw(raw, from, 0, hashes) == MultiRaw(raw, pos, quotes, hashes)
        decreases |raw| - pos
      {
        var p := Get();
        if !p.Rune? { return None; }
        if p.c == '"' as int {
          quotes := quotes + 1;
          if quotes >= 3 {
            var matched := MatchHashes(hashes);
            if matched == hashes {
              var literal := CopyFromMark();
              return Some(literal);
            }
            quotes := 0;
          }
        } else {
          quotes := 0;
        }
      }
    }

    /** A raw string, after its opening hashes. */
    method ReadRawString(hashes: nat) returns (r: Option<(TokenID, Bytes)>)
      requires Valid() && At(raw, pos, '"' as int)
      requires marks != [] && marks[|marks| - 1] == pos - hashes
      modifies `peeked, `pos
      ensures Valid()
      ensures Landed(raw, marks[|marks| - 1], RawText(raw, old(pos), hashes), r, pos)
    {
      hide PeekAt, Cached, Raw, MultiRaw;
      AsciiIsOne(raw, pos);
      Skip();
      var second := PeekSize();
      var two := PeekTwoSize();
      var data: Option<Bytes>;
      AsciiIsOne(raw, pos);
      if second.Rune? && second.c == '"' as int && two.Two? && two.c2 == '"' as int {
        AsciiIsOne(raw, pos + 1);
        Skip();
        Skip();
        data := ReadMultiRaw(hashes);
        return if data.Some? then Some((MultilineRawString, data.value)) else None;
      } else {
        data := ReadRaw(hashes);
        return if data.Some? then Some((RawString, data.value)) else None;
      }
    }

    method ReadHashToken() returns (r: Option<(TokenID, Bytes)>)
      requires Valid() && At(raw, pos, '#' as int)
      modifies `peeked, `pos, `marks
      ensures Valid() && marks == old(marks)
      ensures Landed(raw, old(pos), HashToken(raw, old(pos)), r, pos)
    {
      hide PeekAt, Cached, RawText, Hashes, SkipWhile, KeywordToken;
      PushMark();
      var hashes := ReadHashes();
      if hashes.None? {
        PopMark();
        return None;
      }
      var p := PeekSize();
      if p.c == '"' as int {
        r := ReadRawString(hashes.value);
      } else if hashes.value != 1 {
        r := None;
      } else {
        var keyword := ReadWhile(KEYWORD, 1);
        if keyword.None? || KeywordToken(keyword.value).None? {
          r := None;
        } else {
          var literal := CopyFromMark();
          r := Some((KeywordToken(keyword.value).value, literal));
        }
      }
      PopMark();
    }

    /** '/' at the cursor. */
    method ReadSlash() returns (r: Read<(TokenID, Bytes)>)
      requires Valid() && At(raw, pos, '/' as int)
      modifies `peeked, `pos, `marks
      ensures Valid() && marks == old(marks)
      ensures Reports(raw, old(pos), SlashToken(raw, old(pos)), r, pos)
    {
      hide PeekAt, Cached, Comment;
      ghost var from := pos;
      AsciiIsOne(raw, pos);
      var two := PeekTwoSize();
      if two.NotTwo? { return if two.why.AtEof? then End else Error; }
      if two.c2 == '*' as int {
        var data := ReadMultiLineComment();
        return if data.Some? then Got((MultiLineComment, data.value)) else Error;
      } else if two.c2 == '/' as int {
        LineFromTheSlashes(raw, pos);
        var data := ReadUntil(IsNewline);
        return if data.Some? then Got((SingleLineComment, data.value)) else Error;
      } else if two.c2 == '-' as int {
        AsciiIsOne(raw, pos + 1);
        var data := raw[pos..pos + 2];
        Skip();
        Skip();
        return Got((TokenComment, data));
      } else {
        return Error;
      }
    }

    /** '0' at the cursor. */
    method ReadZero() returns (r: Read<(TokenID, Bytes)>)
      requires Valid() && At(raw, pos, '0' as int)
      modifies `peeked, `pos, `marks
      ensures Valid() && marks == old(marks)
      ensures Reports(raw, old(pos), ZeroToken(raw, old(pos)), r, pos)
    {
      hide PeekAt, Cached, NumericBase, DecimalNumber;
      AsciiIsOne(raw, pos);
      var two := PeekTwoSize();
      if two.NotTwo? { return if two.why.AtEof? then End else Error; }
      if two.c2 == 'x' as int || two.c2 == 'o' as int || two.c2 == 'b' as int {
        var id := if two.c2 == 'x' as int then Hexadecimal else if two.c2 == 'o' as int then Octal else Binary;
        var data := ReadNumericBase(id);
        return if data.Some? then Got((id, data.value)) else Error;
      }
      r := ReadNumber();
    }

    method ReadNumber() returns (r: Read<(TokenID, Bytes)>)
      requires Valid() && pos < |raw|
      modifies `peeked, `pos, `marks
      ensures Valid() && marks == old(marks)
      ensures Reports(raw, old(pos), DecimalNumber(raw, old(pos)), r, pos)
    {
      hide PeekAt, Cached, DecimalNumber;
      var data := ReadDecimal();
      match data
      case Got(literal) => return Got((Decimal, literal));
      case End => return End;
      case Error => return Error;
    }

    /** A word, a string, or a sign with no digit behind it. */
    method ReadWord() returns (r: Read<(TokenID, Bytes)>)
      requires Valid() && pos < |raw|
      modifies `peeked, `pos, `marks
      ensures Valid() && marks == old(marks)
      ensures Reports(raw, old(pos), Lift(Identifier(raw, old(pos))), r, pos)
    {
      hide PeekAt, Cached, Identifier;
      var data := ReadIdentifier();
      return if data.Some? then Got(data.value) else Error;
    }

    /** A token that is one rune, or the two runes of a line break. */
    method Take(id: TokenID, runes: nat) returns (r: Read<(TokenID, Bytes)>)
      requires Valid() && 1 <= runes <= 2 && PeekAt(raw, pos).Rune?
      requires runes == 2 ==> PeekAt(raw, pos + PeekAt(raw, pos).size).Rune?
      modifies `peeked, `pos
      ensures Valid()
      ensures pos == old(pos) + Span(raw, old(pos), runes)
      ensures r == Got((id, raw[old(pos)..pos]))
    {
      hide PeekAt, Cached;
      ghost var from := pos;
      var first := PeekSize();
      var size := first.size;
      if runes == 2 {
        var two := PeekTwoSize();
        size := size + two.size2;
      }
      var data := raw[pos..pos + size];
      Skip();
      if runes == 2 { Skip(); }
      return Got((id, data));
    }

    method ReadWhitespace() returns (r: Read<(TokenID, Bytes)>)
      requires Valid() && PeekAt(raw, pos).Rune? && IsWhiteSpace(PeekAt(raw, pos).c)
      modifies `peeked, `pos, `marks
      ensures Valid() && marks == old(marks)
      ensures Reports(raw, old(pos), BlankToken(raw, old(pos)), r, pos)
    {
      hide PeekAt, Cached;
      var data := ReadWhile(BLANKS, 1);
      return Got((Whitespace, if data.Some? then data.value else []));
    }

    /** The token at the cursor, dispatched on its first rune. */
    method Dispatch(c: Rune) returns (r: Read<(TokenID, Bytes)>)
      requires Valid() && PeekAt(raw, pos).Rune? && c == PeekAt(raw, pos).c && c != 0xFEFF
      modifies `peeked, `pos, `marks
      ensures Valid() && marks == old(marks)
      ensures Reports(raw, old(pos), NextToken(raw, old(pos), bomChecked), r, pos)
    {
      hide PeekAt, Cached, BlankToken, SlashToken, HashToken, ZeroToken, DecimalNumber, Identifier, IsWhiteSpace,
        IsNewline, IsDigit;
      AsciiIsOne(raw, pos);
      AsciiIsOne(raw, pos + 1);
      if IsWhiteSpace(c) {
        r := ReadWhitespace();
      } else if c == '\r' as int {
        NewlineByte();
        var two := PeekTwoSize();
        r := Take(Newline, if two.Two? && two.c2 == '\n' as int then 2 else 1);
      } else if IsNewline(c) {
        r := Take(Newline, 1);
      } else if c == '/' as int {
        r := ReadSlash();
      } else if c == '#' as int {
        var data := ReadHashToken();
        return if data.Some? then Got(data.value) else Error;
      } else if Punctuation(c).Some? {
        r := Take(Punctuation(c).value, 1);
      } else if c == '+' as int || c == '-' as int {
        var two := PeekTwoSize();
        if two.Two? && IsDigit(two.c2) { r := ReadNumber(); } else { r := ReadWord(); }
      } else if c == '0' as int {
        r := ReadZero();
      } else if IsDigit(c) {
        r := ReadNumber();
      } else {
        r := ReadWord();
      }
    }

    /** readNext: the token at the cursor, the end, or an error; the marks are as they were. */
    method ReadNext() returns (r: Read<Token>)
      requires Valid()
      modifies `peeked, `pos, `marks, `bomChecked
      ensures Valid() && marks == old(marks)
      ensures r == Reading(raw, old(pos), NextToken(raw, old(pos), old(bomChecked)))
      ensures r.Got? ==> pos == NextToken(raw, old(pos), old(bomChecked)).end && bomChecked
    {
      hide PeekAt, Cached;
      var from := pos;
      var p := PeekSize();
      if !p.Rune? {
        return if p.AtEof? then End else Error;
      }
      var read: Read<(TokenID, Bytes)>;
      if p.c == 0xFEFF {
        if pos != 0 || bomChecked { return Error; }
        bomChecked := true;
        read := Take(Whitespace, 1);
      } else {
        ghost var before := bomChecked;
        bomChecked := true;
        read := Dispatch(p.c);
        MarkOnlyMattersForMark(raw, from, before);
      }
      match read
      case Got(token) => return Got(Token(token.0, token.1, from));
      case End => return End;
      case Error => return Error;
    }

    /** ScanAll: every token up to the end, or an error. */
    method ScanAll() returns (r: Option<seq<Token>>)
      requires Valid()
      modifies `peeked, `pos, `marks, `bomChecked
      ensures Valid() && marks == old(marks)
      ensures var scan := ScanFrom(raw, old(pos), old(bomChecked));
              r == if scan.Failed? then None else Some(scan.tokens)
    {
      hide NextToken, Cached;
      var tokens: seq<Token> := [];
      while true
        invariant Valid() && marks == old(marks)
        invariant ScanFrom(raw, old(pos), old(bomChecked)) == Prepend(tokens, ScanFrom(raw, pos, bomChecked))
        decreases |raw| - pos
      {
        ghost var at, checked := pos, bomChecked;
        var next := ReadNext();
        assert tokens + [] == tokens;
        if next.End? { return Some(tokens); }
        if next.Error? { return None; }
        PrependOne(raw, at, checked, tokens);
        tokens := tokens + [next.value];
      }
    }
  }

  /** A recognised piece was read whole and the cursor is behind it, or it was not recognised. */
  predicate Landed(s: Bytes, from: nat, spec: Option<(TokenID, nat)>, r: Option<(TokenID, Bytes)>, pos: nat) {
    match spec
    case None => r.None?
    case Some(p) => from <= p.1 <= |s| && p.1 == pos && r == Some((p.0, s[from..p.1]))
  }

  /** A token of the given kind was read and the cursor is behind it, or the outcome is the specified one. */
  predicate ReadsAs(s: Bytes, from: nat, spec: Lexed, r: Read<Bytes>, pos: nat) {
    match spec
    case LexEof => r.End?
    case LexError => r.Error?
    case Lexed(_, end, whole) => whole && from <= end <= |s| && end == pos && r == Got(s[from..end])
  }

  /** The outcome of what follows a number's integer part. */
  predicate AfterInteger(s: Bytes, from: nat, r: Read<()>, pos: nat) {
    && from <= pos <= |s|
    && match Fraction(s, from) {
      case None => r.Error?
      case Some(k) =>
        if !AtExponent(s, k) then r.Got? && pos == k
        else if k + 1 == |s| then r.End?
        else match SignedInteger(s, k + 1) {
          case None => r.Error?
          case Some(l) => r.Got? && pos == l
        }
    }
  }

  /** The outcome of reading one token, without its offset. */
  predicate Reports(s: Bytes, from: nat, spec: Lexed, r: Read<(TokenID, Bytes)>, pos: nat) {
    match spec
    case LexEof => r.End?
    case LexError => r.Error?
    case Lexed(id, end, whole) => from <= end <= |s| && end == pos && r == Got((id, if whole then s[from..end] else []))
  }

  /** A single-line comment may as well be read from its first slash. */
  lemma LineFromTheSlashes(s: Bytes, i: nat)
    requires At(s, i, '/' as int) && At(s, i + 1, '/' as int)
    ensures i + 2 <= |s| && SkipUntil(s, i, IsNewline) == SkipUntil(s, i + 2, IsNewline)
  {
    AsciiIsOne(s, i);
    AsciiIsOne(s, i + 1);
    assert SkipUntil(s, i, IsNewline) == SkipUntil(s, i + 1, IsNewline);
  }

  /** How many bytes one or two runes take. */
  function Span(s: Bytes, i: nat, runes: nat): (n: nat)
    requires i <= |s| && PeekAt(s, i).Rune? && (runes == 2 ==> PeekAt(s, i + PeekAt(s, i).size).Rune?)
    ensures i + n <= |s|
  {
    PeekAt(s, i).size + if runes == 2 then PeekAt(s, i + PeekAt(s, i).size).size else 0
  }

  lemma NewlineByte()
    ensures IsNewline('\r' as int) && !IsWhiteSpace('\r' as int)
  {}

  lemma MarkOnlyMattersForMark(s: Bytes, i: nat, bomChecked: bool)
    requires i <= |s| && !At(s, i, 0xFEFF)
    ensures NextToken(s, i, bomChecked) == NextToken(s, i, true)
  {
    hide PeekAt;
  }

  lemma PrependOne(s: Bytes, i: nat, bomChecked: bool, ts: seq<Token>)
    requires i <= |s| && NextToken(s, i, bomChecked).Lexed?
    ensures var r := NextToken(s, i, bomChecked);
      Prepend(ts, ScanFrom(s, i, bomChecked)) == Prepend(ts + [Reading(s, i, r).value], ScanFrom(s, r.end, true))
  {
    hide NextToken;
    var r := NextToken(s, i, bomChecked);
    var scan := ScanFrom(s, r.end, true);
    if scan.Scanned? {
      assert ts + ([Reading(s, i, r).value] + scan.tokens) == (ts + [Reading(s, i, r).value]) + scan.tokens;
    }
  }

  lemma AsciiIsOne(s: Bytes, i: nat)
    requires i <= |s|
    ensures PeekAt(s, i).Rune? && PeekAt(s, i).c < 0x80 ==> PeekAt(s, i).size == 1
  {
    if i < |s| { AsciiDecodes(s, i); }
  }
}
