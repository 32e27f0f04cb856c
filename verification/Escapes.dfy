// What every escape of a quoted string means, those that the writer never writes included.
module Escapes {
  import opened Basics
  import opened Utf8
  import opened Strings

  // ----- code points -----

  /** A hexadecimal digit and how its letter is written. */
  datatype Digit = Digit(value: nat, capital: bool)

  predicate AreDigits(digits: seq<Digit>) { forall k :: 0 <= k < |digits| ==> digits[k].value < 16 }

  function CapitalDigit(n: nat): Byte
    requires n < 16
  {
    if n < 10 then 0x30 + n else 0x41 + n - 10
  }

  function Written(digits: seq<Digit>): (b: Bytes)
    requires AreDigits(digits)
    ensures |b| == |digits|
  {
    seq(|digits|, k requires 0 <= k < |digits| => if digits[k].capital then CapitalDigit(digits[k].value) else HexDigit(digits[k].value))
  }

  /** The number that the digits write, most significant digit first. */
  function Number(digits: seq<Digit>): nat {
    if digits == [] then 0 else 16 * Number(digits[..|digits| - 1]) + digits[|digits| - 1].value
  }

  lemma DigitHasItsValue(d: Digit)
    requires d.value < 16
    ensures HexTable(if d.capital then CapitalDigit(d.value) else HexDigit(d.value)) == d.value
  {}

  lemma {:induction false} LastDigit(s: Bytes, i: nat, j: nat)
    requires i < j <= |s|
    ensures HexValue(s, i, j) == 16 * HexValue(s, i, j - 1) + HexTable(s[j - 1])
    decreases j - i
  {
    if i + 1 < j {
      LastDigit(s, i + 1, j);
      assert Pow16(j - i - 1) == 16 * Pow16(j - i - 2);
      Factor(HexTable(s[i]), Pow16(j - i - 2), HexValue(s, i + 1, j - 1));
    }
  }

  lemma Factor(a: nat, p: nat, b: nat)
    ensures a * (16 * p) + 16 * b == 16 * (a * p + b)
  {}

  lemma {:induction false} DigitsHaveTheirNumber(digits: seq<Digit>, s: Bytes, i: nat)
    requires AreDigits(digits) && StandsAt(Written(digits), s, i)
    ensures HexValue(s, i, i + |digits|) == Number(digits)
    decreases |digits|
  {
    if digits != [] {
      var k := |digits| - 1;
      var front := digits[..k];
      StandsPart(Written(digits), s, i, 0, k);
      assert Written(digits)[0..k] == Written(front);
      DigitsHaveTheirNumber(front, s, i);
      StandsPart(Written(digits), s, i, k, k + 1);
      assert s[i + k] == Written(digits)[k];
      DigitHasItsValue(digits[k]);
      LastDigit(s, i, i + |digits|);
    }
  }

  lemma {:induction false} BraceIsFound(s: Bytes, i: nat, j: nat)
    requires i <= j < |s| && s[j] == '}' as int && forall k :: i <= k < j ==> s[k] != '}' as int
    ensures BraceFrom(s, i) == j
    decreases j - i
  {
    if i < j { BraceIsFound(s, i + 1, j); }
  }

  /** The escape of a code point in these digits, without its backslash. */
  function Escaped(digits: seq<Digit>): Bytes
    requires AreDigits(digits)
  {
    ['u' as int, '{' as int] + Written(digits) + ['}' as int]
  }

  lemma EscapedStands(digits: seq<Digit>, s: Bytes, i: nat)
    requires AreDigits(digits) && StandsAt(Escaped(digits), s, i)
    ensures i + |digits| + 2 < |s| && s[i] == 'u' as int && s[i + 1] == '{' as int && s[i + 2 + |digits|] == '}' as int
    ensures StandsAt(Written(digits), s, i + 2) && BraceFrom(s, i + 2) == i + 2 + |digits|
  {
    var all, n := Escaped(digits), |digits|;
    StandsPart(all, s, i, 0, n + 3);
    assert s[i + 0] == all[0] && s[i + 1] == all[1] && s[i + (2 + n)] == all[2 + n];
    StandsPart(all, s, i, 2, 2 + n);
    assert all[2..2 + n] == Written(digits);
    forall k | i + 2 <= k < i + 2 + n ensures s[k] != '}' as int { assert s[i + (k - i)] == all[k - i] == Written(digits)[k - i - 2]; }
    BraceIsFound(s, i + 2, i + 2 + n);
  }

  /**
   * Main result: wherever the escape of a code point stands, in up to six hexadecimal digits of either case, leading zeros
   * included, it is decoded to the character whose number the digits write; surrogates, numbers beyond U+10FFFF and more
   * digits are refused.
   */
  lemma CodePointIsDecoded(digits: seq<Digit>, s: Bytes, i: nat)
    requires AreDigits(digits) && digits != [] && StandsAt(Escaped(digits), s, i)
    ensures var r := Number(digits);
      if |digits| > 6 || r > 0x10FFFF || 0xD800 <= r <= 0xDFFF then EscapeAt(s, i) == None
      else
        && EscapeAt(s, i).Some? && EscapeAt(s, i).value.1 == i + |digits| + 3
        && EscapeAt(s, i).value.0 == Encode(r) && DecodeAt(Encode(r), 0) == Decoded(r, |Encode(r)|)
  {
    EscapedStands(digits, s, i);
    DigitsHaveTheirNumber(digits, s, i + 2);
    hide Encode, HexValue, Number, DecodeAt;
    if IsScalar(Number(digits)) { EncodeDecodes(Number(digits)); }
  }

  /** The body of a string that is one escape. */
  lemma OneEscape(s: Bytes)
    requires |s| > 1 && s[0] == BACKSLASH && 0x20 < s[1] < 0x80
    ensures EscapeAt(s, 1).None? ==> UnescapeFrom(s, 0) == None
    ensures EscapeAt(s, 1).Some? && EscapeAt(s, 1).value.1 == |s| ==> UnescapeFrom(s, 0) == Some(EscapeAt(s, 1).value.0)
  {
    hide EscapeAt, SpaceAt;
    NoSpaceAt(s, 1);
    AtEndOfBody(s, |s|);
    if EscapeAt(s, 1).Some? { AfterNothing(EscapeAt(s, 1).value.0); }
  }

  /** A string that is one escape of a code point. */
  lemma QuotedCodePoint(digits: seq<Digit>)
    requires AreDigits(digits) && digits != []
    ensures var t := [QUOTE, BACKSLASH] + Escaped(digits) + [QUOTE]; var r := Number(digits);
      Unquoted(t) == if |digits| > 6 || r > 0x10FFFF || 0xD800 <= r <= 0xDFFF then None else Some(Encode(r))
  {
    hide EscapeAt, Encode, Number, UnescapeFrom, Written;
    var e := Escaped(digits);
    var t := [QUOTE, BACKSLASH] + e + [QUOTE];
    var s := t[1..|t| - 1];
    assert s == [BACKSLASH] + e;
    assert s[1..1 + |e|] == e && s[1] == e[0];
    CodePointIsDecoded(digits, s, 1);
    OneEscape(s);
  }

  lemma NoSpaceAt(s: Bytes, i: nat)
    requires i < |s| && 0x20 < s[i] < 0x80
    ensures !SpaceAt(s, i)
  {
    AsciiDecodes(s, i);
  }

  // ----- one letter -----

  /** The escapes of one letter, and their characters. */
  const LETTERS: seq<(char, Byte)> :=
    [('"', 0x22), ('\\', 0x5C), ('b', 0x08), ('f', 0x0C), ('n', 0x0A), ('r', 0x0D), ('s', 0x20), ('t', 0x09)]

  /** What an escape of one letter is decoded to: the character in the list, and nothing for every other letter. */
  lemma LetterIsDecoded(s: Bytes, i: nat)
    requires i < |s| && s[i] != 'u' as int
    ensures forall k :: 0 <= k < |LETTERS| && s[i] == LETTERS[k].0 as int ==> EscapeAt(s, i) == Some(([LETTERS[k].1], i + 1))
    ensures (forall k :: 0 <= k < |LETTERS| ==> s[i] != LETTERS[k].0 as int) ==> EscapeAt(s, i) == None
  {
    if forall k :: 0 <= k < |LETTERS| ==> s[i] != LETTERS[k].0 as int {
      assert s[i] != LETTERS[0].0 as int && s[i] != LETTERS[1].0 as int && s[i] != LETTERS[2].0 as int && s[i] != LETTERS[3].0 as int;
      assert s[i] != LETTERS[4].0 as int && s[i] != LETTERS[5].0 as int && s[i] != LETTERS[6].0 as int && s[i] != LETTERS[7].0 as int;
    }
  }

  /** A string that is one escape of one letter. */
  lemma QuotedLetter(k: nat)
    requires k < |LETTERS|
    ensures Unquoted([QUOTE, BACKSLASH, LETTERS[k].0 as int, QUOTE]) == Some([LETTERS[k].1])
  {
    var t := [QUOTE, BACKSLASH, LETTERS[k].0 as int, QUOTE];
    var s := t[1..|t| - 1];
    assert s == [BACKSLASH, LETTERS[k].0 as int];
    LetterIsDecoded(s, 1);
    NoSpaceAt(s, 1);
    AtEndOfBody(s, 2);
    hide EscapeAt;
    AfterNothing([LETTERS[k].1]);
  }

  /** An escape that is neither in the list, nor of a code point, nor of whitespace makes the string unreadable, wherever it stands. */
  lemma UnknownEscapeFails(s: Bytes, i: nat)
    requires i + 1 < |s| && s[i] == BACKSLASH && s[i + 1] != 'u' as int && !SpaceAt(s, i + 1)
    requires forall k :: 0 <= k < |LETTERS| ==> s[i + 1] != LETTERS[k].0 as int
    ensures UnescapeFrom(s, i) == None && ResolveFrom(s, i) == None
  {
    LetterIsDecoded(s, i + 1);
  }
}
