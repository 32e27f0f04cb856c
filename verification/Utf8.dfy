// UTF-8 decoding as Go's unicode/utf8 does it, and the runes that KDL gives a meaning.
module Utf8 {
  import opened Basics

  type Rune = int

  const RUNE_ERROR: Rune := 0xFFFD

  /** A decoded rune and how many bytes it took; malformed input gives RuneError and 1, no input gives RuneError and 0. */
  datatype Decoded = Decoded(c: Rune, size: nat)

  predicate Continues(s: Bytes, i: nat) {
    i < |s| && 0x80 <= s[i] <= 0xBF
  }

  /** The payload of the continuation byte at i. */
  function Low(s: Bytes, i: nat): int
    requires i < |s|
  {
    s[i] as int - 0x80
  }

  function DecodeAt(s: Bytes, i: nat): (d: Decoded)
    requires i <= |s|
    ensures i + d.size <= |s|
    ensures d.size == 0 <==> i == |s|
  {
    if i == |s| then Decoded(RUNE_ERROR, 0) else
    var b: int := s[i];
    if b < 0x80 then Decoded(b, 1)
    else if 0xC2 <= b <= 0xDF && Continues(s, i + 1) then
      Decoded((b - 0xC0) * 0x40 + Low(s, i + 1), 2)
    else if 0xE0 <= b <= 0xEF && Continues(s, i + 1) && Continues(s, i + 2)
         && (b == 0xE0 ==> 0xA0 <= s[i + 1]) && (b == 0xED ==> s[i + 1] <= 0x9F) then
      Decoded((b - 0xE0) * 0x1000 + Low(s, i + 1) * 0x40 + Low(s, i + 2), 3)
    else if 0xF0 <= b <= 0xF4 && Continues(s, i + 1) && Continues(s, i + 2) && Continues(s, i + 3)
         && (b == 0xF0 ==> 0x90 <= s[i + 1]) && (b == 0xF4 ==> s[i + 1] <= 0x8F) then
      Decoded((b - 0xF0) * 0x40000 + Low(s, i + 1) * 0x1000 + Low(s, i + 2) * 0x40 + Low(s, i + 3), 4)
    else Decoded(RUNE_ERROR, 1)
  }

  /** A malformed byte at i. */
  predicate Malformed(s: Bytes, i: nat)
    requires i < |s|
  {
    DecodeAt(s, i) == Decoded(RUNE_ERROR, 1)
  }

  /** Well-formed UTF-8 from i on. */
  predicate ValidFrom(s: Bytes, i: nat)
    requires i <= |s|
    decreases |s| - i
  {
    i == |s| || (!Malformed(s, i) && ValidFrom(s, i + DecodeAt(s, i).size))
  }

  /** Decoding looks no further than the rune it decodes. */
  lemma DecodeLocal(s: Bytes, i: nat, t: Bytes, j: nat)
    requires i < |s| && j <= |t| && !Malformed(s, i)
    requires var n := DecodeAt(s, i).size; j + n <= |t| && t[j..j + n] == s[i..i + n]
    ensures DecodeAt(t, j) == DecodeAt(s, i)
  {
    var n := DecodeAt(s, i).size;
    assert forall k {:trigger t[j + k]} :: 0 <= k < n ==> t[j + k] == t[j..j + n][k] == s[i..i + n][k] == s[i + k];
    assert t[j + 0] == s[i + 0];
    if n > 1 {
      assert t[j + 1] == s[i + 1];
      if n > 2 {
        assert t[j + 2] == s[i + 2];
        if n > 3 {
          assert t[j + 3] == s[i + 3];
        }
      }
    }
  }

  /** The bytes of a rune beyond ASCII are all beyond ASCII. */
  lemma HighBytes(s: Bytes, i: nat)
    requires i < |s| && s[i] >= 0x80
    ensures forall k :: i <= k < i + DecodeAt(s, i).size ==> s[k] >= 0x80
    ensures DecodeAt(s, i).c >= 0x80
  {}

  lemma AsciiDecodes(s: Bytes, i: nat)
    requires i < |s|
    ensures DecodeAt(s, i).c < 0x80 <==> s[i] < 0x80
    ensures s[i] < 0x80 ==> DecodeAt(s, i) == Decoded(s[i], 1)
  {}

  /** x[i..] occurs in t at j. */
  predicate Occurs(x: Bytes, i: nat, t: Bytes, j: nat) {
    i <= |x| && j + (|x| - i) <= |t| && t[j..j + (|x| - i)] == x[i..]
  }

  lemma OccursNext(x: Bytes, i: nat, t: Bytes, j: nat)
    requires Occurs(x, i, t, j) && i < |x| && !Malformed(x, i)
    ensures DecodeAt(t, j) == DecodeAt(x, i)
    ensures var n := DecodeAt(x, i).size; Occurs(x, i + n, t, j + n)
    ensures var n := DecodeAt(x, i).size; forall m :: j < m < j + n ==> 0x80 <= t[m] <= 0xBF
  {
    var n := DecodeAt(x, i).size;
    assert t[j..j + n] == t[j..j + (|x| - i)][..n] == x[i..][..n] == x[i..i + n];
    DecodeLocal(x, i, t, j);
    assert t[j + n..j + (|x| - i)] == t[j..j + (|x| - i)][n..] == x[i..][n..] == x[i + n..];
    Trailing(t, j);
  }

  lemma Trailing(t: Bytes, j: nat)
    requires j < |t|
    ensures forall m :: j < m < j + DecodeAt(t, j).size ==> 0x80 <= t[m] <= 0xBF
  {
    if DecodeAt(t, j).size > 1 {
      assert Continues(t, j + 1);
    }
  }

  /** Malformed text stays malformed at the end and in front of an ASCII character. */
  lemma MalformedStays(x: Bytes, i: nat, t: Bytes, j: nat)
    requires Occurs(x, i, t, j) && i < |x| && Malformed(x, i)
    requires j + (|x| - i) < |t| ==> t[j + (|x| - i)] < 0x80
    ensures Malformed(t, j)
  {
    var m := |x| - i;
    assert forall k {:trigger t[j + k]} :: 0 <= k < m ==> t[j + k] == t[j..j + m][k] == x[i..][k] == x[i + k];
    assert t[j + 0] == x[i + 0];
    if m > 1 {
      assert t[j + 1] == x[i + 1];
      if m > 2 {
        assert t[j + 2] == x[i + 2];
        if m > 3 { assert t[j + 3] == x[i + 3]; }
      }
    }
  }

  // ----- the tokenizer's character classes -----

  predicate IsWhiteSpace(c: Rune) {
    c == 0x09 || c == 0x20 || c == 0xA0 || c == 0x1680 || 0x2000 <= c <= 0x200A || c == 0x202F || c == 0x205F || c == 0x3000
  }

  predicate IsNewline(c: Rune) {
    c == 0x0D || c == 0x0A || c == 0x0B || c == 0x85 || c == 0x0C || c == 0x2028 || c == 0x2029
  }

  predicate IsDigit(c: Rune) { '0' as int <= c <= '9' as int }

  predicate IsSeparator(c: Rune) { IsWhiteSpace(c) || IsNewline(c) || c == ';' as int }

  predicate IsDisallowed(c: Rune) {
    || 0x00 <= c <= 0x08 || 0x0E <= c <= 0x1F || c == 0x7F || c == 0x200E || c == 0x200F
    || 0x202A <= c <= 0x202E || 0x2066 <= c <= 0x2069 || c == 0xFEFF
  }

  predicate IsPunctuation(c: Rune) {
    || c == '{' as int || c == '}' as int || c == '#' as int || c == ';' as int || c == '[' as int || c == ']' as int || c == '=' as int
    || c == '(' as int || c == ')' as int || c == '/' as int || c == '\\' as int || c == '"' as int
  }

  predicate IsBareChar(c: Rune) {
    !IsWhiteSpace(c) && !IsNewline(c) && 0x20 < c <= 0x10FFFF && !IsDisallowed(c) && !IsPunctuation(c)
  }

  predicate IsBareStart(c: Rune) { IsBareChar(c) && !IsDigit(c) }
}
