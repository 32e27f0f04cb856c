// Quoted strings: per-character escaping, the one-pass decoder of single-line strings and the two passes of
// multi-line strings, as functions; and what the codecs promise of each other.
module Strings {
  import opened Basics
  import opened Utf8

  const QUOTE: Byte := 0x22
  const BACKSLASH: Byte := 0x5C
  /** The text written for a malformed byte, spelled out as an escape. */
  const UNREADABLE: Bytes := [0x5C, 0x75, 0x66, 0x66, 0x66, 0x64]

  /** Printable ASCII other than the quote and the backslash. */
  predicate IsPlain(c: Byte) {
    0x20 <= c <= 0x7E && c != QUOTE && c != BACKSLASH
  }

  function HexDigit(n: nat): Byte
    requires n < 16
  {
    if n < 10 then 0x30 + n else 0x61 + n - 10
  }

  function Hex(c: Byte): Bytes {
    if c < 16 then [HexDigit(c)] else [HexDigit(c / 16), HexDigit(c % 16)]
  }

  /** How one ASCII character that is not plain is written. */
  function Escape(c: Byte): Bytes {
    if c == QUOTE || c == BACKSLASH then [BACKSLASH, c]
    else if c == 0x0A then [BACKSLASH, 'n' as int]
    else if c == 0x0D then [BACKSLASH, 'r' as int]
    else if c == 0x09 then [BACKSLASH, 't' as int]
    else if c == 0x08 then [BACKSLASH, 'b' as int]
    else if c == 0x0C then [BACKSLASH, 'f' as int]
    else [BACKSLASH, 'u' as int] + Hex(c)
  }

  /** s[i..] escaped character by character. */
  function EscapeFrom(s: Bytes, i: nat): Bytes
    requires i <= |s|
    decreases |s| - i
  {
    if i == |s| then []
    else if IsPlain(s[i]) then [s[i]] + EscapeFrom(s, i + 1)
    else if s[i] < 0x80 then Escape(s[i]) + EscapeFrom(s, i + 1)
    else if Malformed(s, i) then UNREADABLE + EscapeFrom(s, i + 1)
    else s[i..i + DecodeAt(s, i).size] + EscapeFrom(s, i + DecodeAt(s, i).size)
  }

  function Quoted(s: Bytes): Bytes {
    [QUOTE] + EscapeFrom(s, 0) + [QUOTE]
  }

  // ----- decoding -----

  predicate SpaceAt(s: Bytes, i: nat) {
    i < |s| && (IsWhiteSpace(DecodeAt(s, i).c) || IsNewline(DecodeAt(s, i).c))
  }

  function SkipSpace(s: Bytes, i: nat): (j: nat)
    requires i <= |s|
    ensures i <= j <= |s|
    decreases |s| - i
  {
    if SpaceAt(s, i) then SkipSpace(s, i + DecodeAt(s, i).size) else i
  }

  /** The escapes of one character. */
  function Simple(c: Byte): Option<Byte> {
    if c == QUOTE || c == BACKSLASH then Some(c)
    else if c == 'n' as int then Some(0x0A)
    else if c == 'r' as int then Some(0x0D)
    else if c == 't' as int then Some(0x09)
    else if c == 'b' as int then Some(0x08)
    else if c == 'f' as int then Some(0x0C)
    else if c == 's' as int then Some(0x20)
    else None
  }

  function BraceFrom(s: Bytes, i: nat): (j: nat)
    requires i <= |s|
    ensures i <= j <= |s|
    decreases |s| - i
  {
    if i < |s| && s[i] != '}' as int then BraceFrom(s, i + 1) else i
  }

  /** The lookup table of hexadecimal digits holds 0 for everything else. */
  function HexTable(c: Byte): nat {
    if '0' as int <= c <= '9' as int then c as int - '0' as int
    else if 'a' as int <= c <= 'f' as int then c as int - 'a' as int + 10
    else if 'A' as int <= c <= 'F' as int then c as int - 'A' as int + 10
    else 0
  }

  function Pow16(n: nat): nat { if n == 0 then 1 else 16 * Pow16(n - 1) }

  function HexValue(s: Bytes, i: nat, j: nat): nat
    requires i <= j <= |s|
    decreases j - i
  {
    if i == j then 0 else HexTable(s[i]) * Pow16(j - i - 1) + HexValue(s, i + 1, j)
  }

  predicate IsScalar(r: Rune) { 0 <= r <= 0x10FFFF && !(0xD800 <= r <= 0xDFFF) }

  /** The UTF-8 form of a rune. */
  function Encode(r: Rune): Bytes
    requires IsScalar(r)
  {
    if r < 0x80 then [r]
    else if r < 0x800 then [0xC0 + r / 0x40, 0x80 + r % 0x40]
    else if r < 0x10000 then [0xE0 + r / 0x1000, 0x80 + r / 0x40 % 0x40, 0x80 + r % 0x40]
    else [0xF0 + r / 0x40000, 0x80 + r / 0x1000 % 0x40, 0x80 + r / 0x40 % 0x40, 0x80 + r % 0x40]
  }

  /** The escape whose letter 'u' is at i: the rune's bytes and the index behind the closing brace. */
  function CodePoint(s: Bytes, i: nat): (r: Option<(Bytes, nat)>)
    requires i < |s|
    ensures r.Some? ==> i < r.value.1 <= |s|
  {
    if i + 3 >= |s| || s[i + 1] != '{' as int then None
    else
      var j := BraceFrom(s, i + 2);
      if j == |s| || j - (i + 2) > 6 then None
      else
        var r := HexValue(s, i + 2, j);
        if !IsScalar(r) then None else Some((Encode(r), j + 1))
  }

  /** The escape whose letter is at i. */
  function EscapeAt(s: Bytes, i: nat): (r: Option<(Bytes, nat)>)
    requires i < |s|
    ensures r.Some? ==> i < r.value.1 <= |s|
  {
    if s[i] == 'u' as int then CodePoint(s, i)
    else
      var c :- Simple(s[i]);
      Some(([c], i + 1))
  }

  function After(piece: Bytes, rest: Option<Bytes>): Option<Bytes> {
    if rest.Some? then Some(piece + rest.value) else None
  }

  lemma AfterNothing(piece: Bytes)
    ensures After(piece, Some([])) == Some(piece)
  {
    assert piece + [] == piece;
  }

  /** One pass over s[i..], the body of a single-line string. */
  function UnescapeFrom(s: Bytes, i: nat): Option<Bytes>
    requires i <= |s|
    decreases |s| - i
  {
    if i == |s| then Some([])
    else if s[i] >= 0x80 then
      if Malformed(s, i) then After(UNREADABLE, UnescapeFrom(s, i + 1))
      else After(s[i..i + DecodeAt(s, i).size], UnescapeFrom(s, i + DecodeAt(s, i).size))
    else if s[i] != BACKSLASH then After([s[i]], UnescapeFrom(s, i + 1))
    else if i + 1 == |s| then None
    else if SpaceAt(s, i + 1) then UnescapeFrom(s, SkipSpace(s, i + 1))
    else
      match EscapeAt(s, i + 1)
      case None => None
      case Some(e) => After(e.0, UnescapeFrom(s, e.1))
  }

  /** A single-line quoted string with its quotes; the empty text stands for itself. */
  function Unquoted(t: Bytes): Option<Bytes> {
    if t == [] then Some([])
    else if |t| < 2 || t[0] != QUOTE || t[|t| - 1] != QUOTE then None
    else UnescapeFrom(t[1..|t| - 1], 0)
  }

  /** First pass over s[i..]: whitespace escapes vanish, everything else stays. */
  function JoinFrom(s: Bytes, i: nat): Bytes
    requires i <= |s|
    decreases |s| - i
  {
    if i == |s| then []
    else if s[i] != BACKSLASH || i + 1 == |s| then [s[i]] + JoinFrom(s, i + 1)
    else if s[i + 1] == BACKSLASH then [BACKSLASH, BACKSLASH] + JoinFrom(s, i + 2)
    else if SpaceAt(s, i + 1) then JoinFrom(s, SkipSpace(s, i + 1))
    else [BACKSLASH] + JoinFrom(s, i + 1)
  }

  /** Second pass over s[i..]. Behind a malformed byte one more byte is copied without being looked at. */
  function ResolveFrom(s: Bytes, i: nat): Option<Bytes>
    requires i <= |s|
    decreases |s| - i
  {
    if i == |s| then Some([])
    else if s[i] >= 0x80 then
      if Malformed(s, i) then
        if i + 1 == |s| then Some([0xEF, 0xBF, 0xBD])
        else After([0xEF, 0xBF, 0xBD, s[i + 1]], ResolveFrom(s, i + 2))
      else After(s[i..i + DecodeAt(s, i).size], ResolveFrom(s, i + DecodeAt(s, i).size))
    else if s[i] != BACKSLASH then After([s[i]], ResolveFrom(s, i + 1))
    else if i + 1 == |s| then None
    else
      match EscapeAt(s, i + 1)
      case None => None
      case Some(e) => After(e.0, ResolveFrom(s, e.1))
  }

  /** The second pass returns text without a backslash as it is, malformed bytes included. */
  function Resolved(s: Bytes): Option<Bytes> {
    if BACKSLASH !in s then Some(s) else ResolveFrom(s, 0)
  }

  // ----- quoting is undone by unquoting -----

  /** The ASCII controls that are written as escapes the decoder knows. */
  predicate HasEscape(c: Byte) {
    (c >= 0x20 && c != 0x7F) || c == 0x08 || c == 0x09 || c == 0x0A || c == 0x0C || c == 0x0D
  }

  /** Well-formed UTF-8 without DEL and without controls other than BS, TAB, LF, FF and CR. */
  predicate QuotableFrom(s: Bytes, i: nat)
    requires i <= |s|
  {
    ValidFrom(s, i) && forall k :: i <= k < |s| ==> HasEscape(s[k])
  }

  /** Decoding t[j..], where t[j..] is s[i..] escaped, gives back s[i..] exactly when s[i..] is quotable, and else fails. */
  lemma {:induction false} EscapeRoundTrip(s: Bytes, i: nat, t: Bytes, j: nat)
    requires i <= |s| && j <= |t| && t[j..] == EscapeFrom(s, i)
    ensures UnescapeFrom(t, j) == if QuotableFrom(s, i) then Some(s[i..]) else None
    decreases |s| - i
  {
    hide UnescapeFrom, EscapeAt;
    if i == |s| {
      AtEndOfBody(t, j);
    } else {
      Ahead(s, i, t, j);
      EscapeRoundTrip(s, Next(s, i), t, j + |Piece(s, i)|);
      PieceRoundTrip(s, i, t, j);
      QuotableStep(s, i);
    }
  }

  lemma AtEndOfBody(t: Bytes, j: nat)
    requires j == |t|
    ensures UnescapeFrom(t, j) == Some([])
  {}

  /** What is written for the character at i, and where the next character starts. */
  function Piece(s: Bytes, i: nat): Bytes
    requires i < |s|
  {
    if IsPlain(s[i]) then [s[i]]
    else if s[i] < 0x80 then Escape(s[i])
    else if Malformed(s, i) then UNREADABLE
    else s[i..i + DecodeAt(s, i).size]
  }

  function Next(s: Bytes, i: nat): (k: nat)
    requires i < |s|
    ensures i < k <= |s|
  {
    i + DecodeAt(s, i).size
  }

  lemma Ahead(s: Bytes, i: nat, t: Bytes, j: nat)
    requires i < |s| && j <= |t| && t[j..] == EscapeFrom(s, i)
    ensures EscapeFrom(s, i) == Piece(s, i) + EscapeFrom(s, Next(s, i))
    ensures j + |Piece(s, i)| <= |t| && t[j..j + |Piece(s, i)|] == Piece(s, i)
    ensures t[j + |Piece(s, i)|..] == EscapeFrom(s, Next(s, i))
  {
    AsciiDecodes(s, i);
    assert EscapeFrom(s, i) == Piece(s, i) + EscapeFrom(s, Next(s, i));
    var n := |Piece(s, i)|;
    assert t[j + n..] == t[j..][n..];
    assert t[j..j + n] == t[j..][..n];
  }

  /** A character that reads back as itself. */
  predicate QuotableAt(s: Bytes, i: nat)
    requires i < |s|
  {
    !Malformed(s, i) && (s[i] < 0x80 ==> HasEscape(s[i]))
  }

  lemma QuotableStep(s: Bytes, i: nat)
    requires i < |s|
    ensures QuotableFrom(s, i) <==> QuotableAt(s, i) && QuotableFrom(s, Next(s, i))
    ensures QuotableAt(s, i) ==> s[i..] == s[i..Next(s, i)] + s[Next(s, i)..]
  {
    AsciiDecodes(s, i);
    if s[i] >= 0x80 { HighBytes(s, i); }
  }

  /** Decoding one written character. */
  lemma PieceRoundTrip(s: Bytes, i: nat, t: Bytes, j: nat)
    requires i < |s| && j + |Piece(s, i)| <= |t| && t[j..j + |Piece(s, i)|] == Piece(s, i)
    ensures UnescapeFrom(t, j) ==
      if QuotableAt(s, i) then After(s[i..Next(s, i)], UnescapeFrom(t, j + |Piece(s, i)|)) else None
  {
    hide EscapeAt;
    AsciiDecodes(s, i);
    var p := Piece(s, i);
    assert t[j] == t[j..j + |p|][0] == p[0];
    assert s[i] < 0x80 ==> s[i..Next(s, i)] == [s[i]];
    if s[i] >= 0x80 && !Malformed(s, i) {
      DecodeLocal(s, i, t, j);
    } else if !IsPlain(s[i]) {
      assert t[j + 1] == t[j..j + |p|][1] == p[1];
      AsciiDecodes(t, j + 1);
      if p[1] == 'u' as int {
        assert t[j + 2] == t[j..j + |p|][2] == p[2];
        NoBrace(t, j + 1);
      } else {
        SimpleEscape(t, j + 1);
      }
    }
  }

  lemma NoBrace(t: Bytes, i: nat)
    requires i + 1 < |t| && t[i] == 'u' as int && t[i + 1] != '{' as int
    ensures EscapeAt(t, i) == None
  {}

  lemma SimpleEscape(t: Bytes, i: nat)
    requires i < |t| && t[i] != 'u' as int && Simple(t[i]).Some?
    ensures EscapeAt(t, i) == Some(([Simple(t[i]).value], i + 1))
  {}

  /** Unquoting a quoted string gives it back exactly when it is quotable; otherwise unquoting fails. */
  lemma QuoteRoundTrip(s: Bytes)
    ensures Unquoted(Quoted(s)) == if QuotableFrom(s, 0) then Some(s) else None
  {
    var t := Quoted(s)[1..|Quoted(s)| - 1];
    assert t == EscapeFrom(s, 0);
    assert t[0..] == t;
    EscapeRoundTrip(s, 0, t, 0);
  }

  // ----- joining -----

  predicate Without(s: Bytes, i: nat, j: nat)
    requires j <= |s|
  {
    forall k :: i <= k < j ==> s[k] != BACKSLASH
  }

  /** The first pass copies a stretch without backslashes. */
  lemma {:induction false} JoinCopies(s: Bytes, i: nat, j: nat)
    requires i <= j <= |s| && Without(s, i, j)
    ensures JoinFrom(s, i) == s[i..j] + JoinFrom(s, j)
    decreases j - i
  {
    hide SpaceAt;
    if i < j {
      JoinCopies(s, i + 1, j);
      Assoc([s[i]], s[i + 1..j], JoinFrom(s, j));
      assert s[i..j] == [s[i]] + s[i + 1..j];
    } else {
      assert s[i..j] == [];
    }
  }

  lemma JoinNothing(s: Bytes)
    ensures JoinFrom(s, |s|) == []
  {}

  lemma Digits64(r: nat)
    ensures r == r / 0x40 * 0x40 + r % 0x40
    ensures r / 0x40 == r / 0x1000 * 0x40 + r / 0x40 % 0x40
    ensures r / 0x1000 == r / 0x40000 * 0x40 + r / 0x1000 % 0x40
  {}

  /** An encoded rune decodes to itself. */
  lemma EncodeDecodes(r: Rune)
    requires IsScalar(r)
    ensures DecodeAt(Encode(r), 0) == Decoded(r, |Encode(r)|)
  {
    Digits64(r);
    var e := Encode(r);
    if r < 0x800 {
    } else if r < 0x10000 {
      assert e[1] == 0x80 + r / 0x40 % 0x40 && e[2] == 0x80 + r % 0x40;
    } else {
      assert e[1] == 0x80 + r / 0x1000 % 0x40 && e[2] == 0x80 + r / 0x40 % 0x40 && e[3] == 0x80 + r % 0x40;
    }
  }

  lemma DecodedIsEncoded(s: Bytes, i: nat)
    requires i < |s| && !Malformed(s, i)
    ensures var d := DecodeAt(s, i); IsScalar(d.c) && s[i..i + d.size] == Encode(d.c)
  {
    var size := DecodeAt(s, i).size;
    if size == 2 {
      TwoAreEncoded(s, i);
    } else if size == 3 {
      ThreeAreEncoded(s, i);
    } else if size == 4 {
      FourAreEncoded(s, i);
    }
  }

  lemma TwoAreEncoded(s: Bytes, i: nat)
    requires i < |s| && DecodeAt(s, i).size == 2
    ensures var c := DecodeAt(s, i).c; IsScalar(c) && s[i..i + 2] == Encode(c)
  {
    SixBits(s[i] - 0xC0, Low(s, i + 1));
  }

  lemma ThreeAreEncoded(s: Bytes, i: nat)
    requires i < |s| && DecodeAt(s, i).size == 3
    ensures var c := DecodeAt(s, i).c; IsScalar(c) && s[i..i + 3] == Encode(c)
  {
    var b: int := s[i];
    SixBits((b - 0xE0) * 0x40 + Low(s, i + 1), Low(s, i + 2));
    SixBits(b - 0xE0, Low(s, i + 1));
  }

  lemma FourAreEncoded(s: Bytes, i: nat)
    requires i < |s| && DecodeAt(s, i).size == 4
    ensures var c := DecodeAt(s, i).c; IsScalar(c) && s[i..i + 4] == Encode(c)
  {
    var b: int := s[i];
    SixBits((b - 0xF0) * 0x1000 + Low(s, i + 1) * 0x40 + Low(s, i + 2), Low(s, i + 3));
    SixBits((b - 0xF0) * 0x40 + Low(s, i + 1), Low(s, i + 2));
    SixBits(b - 0xF0, Low(s, i + 1));
  }

  lemma SixBits(high: nat, low: nat)
    requires low < 0x40
    ensures (high * 0x40 + low) / 0x40 == high && (high * 0x40 + low) % 0x40 == low
  {}

  /** A rune is decoded exactly where its encoding stands; what is not malformed is the encoding of a code point that is no surrogate. */
  lemma DecodesExactly(s: Bytes, i: nat, r: Rune)
    requires i < |s| && IsScalar(r)
    ensures DecodeAt(s, i) == Decoded(r, |Encode(r)|) <==> StandsAt(Encode(r), s, i)
    ensures !Malformed(s, i) ==> IsScalar(DecodeAt(s, i).c) && StandsAt(Encode(DecodeAt(s, i).c), s, i)
  {
    hide Encode, DecodeAt;
    if !Malformed(s, i) { DecodedIsEncoded(s, i); }
    EncodeDecodes(r);
    LongError(r);
    if StandsAt(Encode(r), s, i) { DecodeLocal(Encode(r), 0, s, i); }
  }

  lemma LongError(r: Rune)
    requires IsScalar(r)
    ensures |Encode(r)| > 0 && (r == RUNE_ERROR ==> |Encode(r)| > 1)
  {}
}
