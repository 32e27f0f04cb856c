// The string codecs as they run: index loops with a copy window [start, i), fast paths that never open the window,
// and byte buffers that only grow. Each is proved to compute the function of the same purpose.
module StringCodecs {
  import opened Basics
  import opened Utf8
  import opened Strings

  /** Bytes out so far, plus the open window, plus the encoding of the rest: always the whole encoding. */
  ghost predicate Escaping(b: Bytes, s: Bytes, out: Bytes, start: nat, i: nat) {
    start <= i <= |s| && out + s[start..i] + EscapeFrom(s, i) == b + EscapeFrom(s, 0)
  }

  lemma EscapingCopies(b: Bytes, s: Bytes, out: Bytes, start: nat, i: nat)
    requires Escaping(b, s, out, start, i) && i < |s|
    requires IsPlain(s[i]) || (s[i] >= 0x80 && !Malformed(s, i))
    ensures Escaping(b, s, out, start, Next(s, i))
  {
    AsciiDecodes(s, i);
    var k := Next(s, i);
    assert IsPlain(s[i]) ==> s[i..k] == [s[i]];
    assert EscapeFrom(s, i) == s[i..k] + EscapeFrom(s, k);
    assert s[start..k] == s[start..i] + s[i..k];
    Assoc(out, s[start..i], EscapeFrom(s, i));
    Assoc(s[start..i], s[i..k], EscapeFrom(s, k));
    Assoc(out, s[start..k], EscapeFrom(s, k));
  }

  lemma EscapingReplaces(b: Bytes, s: Bytes, out: Bytes, start: nat, i: nat)
    requires Escaping(b, s, out, start, i) && i < |s|
    requires !IsPlain(s[i]) && (s[i] >= 0x80 ==> Malformed(s, i))
    ensures Escaping(b, s, out + s[start..i] + Piece(s, i), i + 1, i + 1)
  {
    var k := i + 1;
    assert EscapeFrom(s, i) == Piece(s, i) + EscapeFrom(s, k);
    assert s[k..k] == [];
    Assoc(out + s[start..i], Piece(s, i), EscapeFrom(s, k));
    assert out + s[start..i] + Piece(s, i) + [] == out + s[start..i] + Piece(s, i);
  }

  method AppendQuotedString(b: Bytes, s: Bytes) returns (r: Bytes)
    ensures r == b + Quoted(s)
  {
    hide EscapeFrom, DecodeAt;
    r := b + [QUOTE];
    ghost var open := r;
    assert s[0..0] == [];
    var i := 0;
    while i < |s|
      invariant i <= |s| && Escaping(open, s, open, 0, i)
    {
      if !IsPlain(s[i]) {
        r := AppendEscaped(r, s, i);
        Assoc(b, [QUOTE], EscapeFrom(s, 0));
        Assoc(b, [QUOTE] + EscapeFrom(s, 0), [QUOTE]);
        return r + [QUOTE];
      }
      EscapingCopies(open, s, open, 0, i);
      AsciiDecodes(s, i);
      i := i + 1;
    }
    EscapedWhole(open, s, open, 0);
    assert s[0..] == s;
    r := r + s;
    Assoc(b, [QUOTE], EscapeFrom(s, 0));
    Assoc(b, [QUOTE] + EscapeFrom(s, 0), [QUOTE]);
    r := r + [QUOTE];
  }

  /** The slow path, entered at the first character that is not plain. */
  method AppendEscaped(b: Bytes, s: Bytes, first: nat) returns (r: Bytes)
    requires Escaping(b, s, b, 0, first)
    ensures r == b + EscapeFrom(s, 0)
  {
    hide EscapeFrom, DecodeAt;
    r := b;
    var i: nat, start: nat := first, 0;
    while i < |s|
      invariant Escaping(b, s, r, start, i)
    {
      var c := s[i];
      AsciiDecodes(s, i);
      if IsPlain(c) {
        EscapingCopies(b, s, r, start, i);
        i := i + 1;
      } else if c >= 0x80 && !Malformed(s, i) {
        EscapingCopies(b, s, r, start, i);
        i := i + DecodeAt(s, i).size;
      } else {
        EscapingReplaces(b, s, r, start, i);
        if start < i {
          r := r + s[start..i];
        } else {
          assert s[start..i] == [];
          assert r + [] == r;
        }
        r := r + if c >= 0x80 then UNREADABLE else Escape(c);
        i := i + 1;
        start := i;
      }
    }
    EscapedWhole(b, s, r, start);
    if start < |s| {
      r := r + s[start..];
    } else {
      assert s[start..] == [];
      assert r + [] == r;
    }
  }

  lemma EscapedWhole(b: Bytes, s: Bytes, out: Bytes, start: nat)
    requires Escaping(b, s, out, start, |s|)
    ensures out + s[start..] == b + EscapeFrom(s, 0)
  {
    assert s[start..|s|] == s[start..];
    assert out + s[start..] + [] == out + s[start..];
  }

  // ----- decoding -----

  method FindBrace(s: Bytes, from: nat) returns (i: nat)
    requires from <= |s|
    ensures i == BraceFrom(s, from)
  {
    i := from;
    while i < |s| && s[i] != '}' as int
      invariant i <= |s| && BraceFrom(s, from) == BraceFrom(s, i)
    {
      i := i + 1;
    }
  }

  /** The hexadecimal digits, worked through backwards. */
  method HexDigits(s: Bytes, from: nat, to: nat) returns (r: nat)
    requires from <= to <= |s|
    ensures r == HexValue(s, from, to)
  {
    r := 0;
    var factor := 1;
    var j := to;
    while j > from
      invariant from <= j <= to
      invariant factor == Pow16(to - j) && r == HexValue(s, j, to)
    {
      j := j - 1;
      r := r + HexTable(s[j]) * factor;
      factor := factor * 16;
    }
  }

  method ReadCodePoint(s: Bytes, i: nat) returns (r: Option<(Bytes, nat)>)
    requires i < |s|
    ensures r == CodePoint(s, i)
  {
    if i + 3 >= |s| || s[i + 1] != '{' as int { return None; }
    var j := FindBrace(s, i + 2);
    if j >= |s| || j - (i + 2) > 6 { return None; }
    var c := HexDigits(s, i + 2, j);
    if c > 0x10FFFF { return None; }
    if 0xD800 <= c <= 0xDFFF { return None; }
    return Some((Encode(c), j + 1));
  }

  /** The escape whose letter is at i. */
  method ReadEscape(s: Bytes, i: nat) returns (r: Option<(Bytes, nat)>)
    requires i < |s|
    ensures r == EscapeAt(s, i)
  {
    if s[i] == 'u' as int {
      r := ReadCodePoint(s, i);
    } else {
      var c := Simple(s[i]);
      return if c.Some? then Some(([c.value], i + 1)) else None;
    }
  }

  method PassSpace(s: Bytes, from: nat) returns (i: nat)
    requires from <= |s|
    ensures i == SkipSpace(s, from)
  {
    i := from;
    while SpaceAt(s, i)
      invariant i <= |s| && SkipSpace(s, from) == SkipSpace(s, i)
      decreases |s| - i
    {
      i := i + DecodeAt(s, i).size;
    }
  }

  ghost predicate Unescaping(b: Bytes, s: Bytes, out: Bytes, start: nat, i: nat) {
    start <= i <= |s| && After(out + s[start..i], UnescapeFrom(s, i)) == After(b, UnescapeFrom(s, 0))
  }

  predicate Copied(s: Bytes, i: nat)
    requires i < |s|
  {
    if s[i] < 0x80 then s[i] != BACKSLASH else !Malformed(s, i)
  }

  lemma AfterAfter(a: Bytes, b: Bytes, rest: Option<Bytes>)
    ensures After(a, After(b, rest)) == After(a + b, rest)
  {
    if rest.Some? { Assoc(a, b, rest.value); }
  }

  lemma UnescapingCopies(b: Bytes, s: Bytes, out: Bytes, start: nat, i: nat)
    requires Unescaping(b, s, out, start, i) && i < |s| && Copied(s, i)
    ensures Unescaping(b, s, out, start, Next(s, i))
  {
    AsciiDecodes(s, i);
    var k := Next(s, i);
    assert s[i] < 0x80 ==> s[i..k] == [s[i]];
    assert UnescapeFrom(s, i) == After(s[i..k], UnescapeFrom(s, k));
    AfterAfter(out + s[start..i], s[i..k], UnescapeFrom(s, k));
    Assoc(out, s[start..i], s[i..k]);
    assert s[start..k] == s[start..i] + s[i..k];
  }

  /** The window is flushed, piece is written, and decoding goes on at k. */
  lemma UnescapingReplaces(b: Bytes, s: Bytes, out: Bytes, start: nat, i: nat, piece: Bytes, k: nat)
    requires Unescaping(b, s, out, start, i) && i < k <= |s|
    requires UnescapeFrom(s, i) == After(piece, UnescapeFrom(s, k))
    ensures Unescaping(b, s, out + s[start..i] + piece, k, k)
  {
    hide UnescapeFrom;
    AfterAfter(out + s[start..i], piece, UnescapeFrom(s, k));
    assert s[k..k] == [];
    assert out + s[start..i] + piece + [] == out + s[start..i] + piece;
  }

  lemma UnescapeStep(s: Bytes, i: nat)
    requires i < |s|
    ensures s[i] >= 0x80 && Malformed(s, i) ==> UnescapeFrom(s, i) == After(UNREADABLE, UnescapeFrom(s, i + 1))
    ensures s[i] == BACKSLASH && i + 1 == |s| ==> UnescapeFrom(s, i) == None
    ensures s[i] == BACKSLASH && i + 1 < |s| && SpaceAt(s, i + 1) ==>
      UnescapeFrom(s, i) == After([], UnescapeFrom(s, SkipSpace(s, i + 1)))
    ensures s[i] == BACKSLASH && i + 1 < |s| && !SpaceAt(s, i + 1) ==>
      UnescapeFrom(s, i) == var e := EscapeAt(s, i + 1); if e.None? then None else After(e.value.0, UnescapeFrom(s, e.value.1))
  {
    hide EscapeAt, SpaceAt;
    AfterEmpty(UnescapeFrom(s, if i + 1 < |s| && SpaceAt(s, i + 1) then SkipSpace(s, i + 1) else |s|));
  }

  lemma AfterEmpty(rest: Option<Bytes>)
    ensures After([], rest) == rest
  {
    if rest.Some? { assert [] + rest.value == rest.value; }
  }

  /** UnquoteString without its copy: t with its quotes, decoded behind b. */
  method AppendUnquotedString(b: Bytes, t: Bytes) returns (r: Option<Bytes>)
    ensures r == if t == [] then None else After(b, Unquoted(t))
  {
    if |t| < 2 || t[0] != QUOTE || t[|t| - 1] != QUOTE { return None; }
    var s := t[1..|t| - 1];
    assert s[0..0] == [];
    assert b + [] == b;
    var i := 0;
    while i < |s|
      invariant i <= |s| && Unescaping(b, s, b, 0, i)
    {
      if s[i] == BACKSLASH || s[i] >= 0x80 {
        r := AppendUnescaped(b, s, i);
        return;
      }
      UnescapingCopies(b, s, b, 0, i);
      AsciiDecodes(s, i);
      i := i + 1;
    }
    UnescapedWhole(b, s, b, 0);
    assert s[0..] == s;
    return Some(b + s);
  }

  lemma UnescapedWhole(b: Bytes, s: Bytes, out: Bytes, start: nat)
    requires Unescaping(b, s, out, start, |s|)
    ensures After(b, UnescapeFrom(s, 0)) == Some(out + s[start..])
  {
    assert s[start..|s|] == s[start..];
    AfterNothing(out + s[start..]);
  }

  /** The slow path, entered at the first backslash or byte beyond ASCII. */
  method AppendUnescaped(b: Bytes, s: Bytes, first: nat) returns (r: Option<Bytes>)
    requires Unescaping(b, s, b, 0, first)
    ensures r == After(b, UnescapeFrom(s, 0))
  {
    hide UnescapeFrom, DecodeAt, SpaceAt, EscapeAt;
    var out := b;
    var i: nat, start: nat := first, 0;
    while i < |s|
      invariant Unescaping(b, s, out, start, i)
    {
      AsciiDecodes(s, i);
      UnescapeStep(s, i);
      if Copied(s, i) {
        UnescapingCopies(b, s, out, start, i);
        i := i + DecodeAt(s, i).size;
      } else {
        ghost var before := out;
        if start < i {
          out := out + s[start..i];
        } else {
          assert s[start..i] == [];
          assert out + [] == out;
        }
        var piece, next := [], i;
        if s[i] >= 0x80 {
          piece, next := UNREADABLE, i + 1;
        } else if i + 1 == |s| {
          return None;
        } else if SpaceAt(s, i + 1) {
          next := PassSpace(s, i + 1);
        } else {
          var e := ReadEscape(s, i + 1);
          if e.None? { return None; }
          piece, next := e.value.0, e.value.1;
        }
        UnescapingReplaces(b, s, before, start, i, piece, next);
        out := out + piece;
        i, start := next, next;
      }
    }
    UnescapedWhole(b, s, out, start);
    if start < |s| {
      out := out + s[start..];
    } else {
      assert s[start..] == [];
      assert out + [] == out;
    }
    return Some(out);
  }

  // ----- the two passes -----

  method ProcessWhitespaceEscapes(s: Bytes) returns (b: Bytes)
    ensures b == JoinFrom(s, 0)
  {
    if BACKSLASH !in s {
      JoinCopies(s, 0, |s|);
      assert s[0..|s|] + [] == s;
      return s;
    }
    b := [];
    var i := 0;
    while i < |s|
      invariant i <= |s| && JoinFrom(s, 0) == b + JoinFrom(s, i)
    {
      if s[i] != BACKSLASH || i + 1 >= |s| {
        Assoc(b, [s[i]], JoinFrom(s, i + 1));
        b := b + [s[i]];
        i := i + 1;
      } else if s[i + 1] == BACKSLASH {
        Assoc(b, [BACKSLASH, BACKSLASH], JoinFrom(s, i + 2));
        b := b + [BACKSLASH, BACKSLASH];
        i := i + 2;
      } else if SpaceAt(s, i + 1) {
        i := PassSpace(s, i + 1);
      } else {
        Assoc(b, [BACKSLASH], JoinFrom(s, i + 1));
        b := b + [BACKSLASH];
        i := i + 1;
      }
    }
    assert b + [] == b;
  }

  /** The loop's counter may run one past the end, behind a malformed last byte. */
  function Clip(s: Bytes, i: nat): (k: nat)
    ensures k <= |s|
  {
    if i < |s| then i else |s|
  }

  ghost predicate Resolving(s: Bytes, out: Bytes, start: nat, i: nat) {
    && start <= Clip(s, i) <= i <= |s| + 1
    && After(out + s[start..Clip(s, i)], ResolveFrom(s, Clip(s, i))) == ResolveFrom(s, 0)
  }

  lemma ResolvingCopies(s: Bytes, out: Bytes, start: nat, i: nat)
    requires Resolving(s, out, start, i) && i < |s| && Copied(s, i)
    ensures Resolving(s, out, start, Next(s, i))
  {
    AsciiDecodes(s, i);
    var k := Next(s, i);
    assert s[i] < 0x80 ==> s[i..k] == [s[i]];
    assert ResolveFrom(s, i) == After(s[i..k], ResolveFrom(s, k));
    AfterAfter(out + s[start..i], s[i..k], ResolveFrom(s, k));
    Assoc(out, s[start..i], s[i..k]);
    assert s[start..k] == s[start..i] + s[i..k];
  }

  lemma ResolvingReplaces(s: Bytes, out: Bytes, start: nat, i: nat, piece: Bytes, k: nat)
    requires Resolving(s, out, start, i) && i < k <= |s|
    requires ResolveFrom(s, i) == After(piece, ResolveFrom(s, k))
    ensures Resolving(s, out + s[start..i] + piece, k, k)
  {
    hide ResolveFrom;
    AfterAfter(out + s[start..i], piece, ResolveFrom(s, k));
    assert s[k..k] == [];
    assert out + s[start..i] + piece + [] == out + s[start..i] + piece;
  }

  /** Behind a malformed byte the window opens at once and takes one byte unseen. */
  lemma ResolvingMalformed(s: Bytes, out: Bytes, start: nat, i: nat)
    requires Resolving(s, out, start, i) && i < |s| && s[i] >= 0x80 && Malformed(s, i)
    ensures Resolving(s, out + s[start..i] + [0xEF, 0xBF, 0xBD], i + 1, i + 2)
  {
    var mark: Bytes := [0xEF, 0xBF, 0xBD];
    var flushed := out + s[start..i];
    if i + 1 == |s| {
      assert s[i + 1..|s|] == [];
      AfterNothing(mark);
      AfterAfter(flushed, mark, Some([]));
      assert flushed + mark + [] == flushed + mark;
    } else {
      assert s[i + 1..i + 2] == [s[i + 1]];
      assert mark + [s[i + 1]] == [0xEF, 0xBF, 0xBD, s[i + 1]];
      AfterAfter(flushed, mark + [s[i + 1]], ResolveFrom(s, i + 2));
      Assoc(flushed, mark, [s[i + 1]]);
    }
  }

  lemma ResolveStep(s: Bytes, i: nat)
    requires i < |s| && s[i] == BACKSLASH
    ensures i + 1 == |s| ==> ResolveFrom(s, i) == None
    ensures i + 1 < |s| ==>
      ResolveFrom(s, i) == var e := EscapeAt(s, i + 1); if e.None? then None else After(e.value.0, ResolveFrom(s, e.value.1))
  {
    hide EscapeAt;
  }

  lemma ResolvedWhole(s: Bytes, out: Bytes, start: nat, i: nat)
    requires Resolving(s, out, start, i) && i >= |s|
    ensures ResolveFrom(s, 0) == Some(out + s[start..])
  {
    assert s[start..|s|] == s[start..];
    AfterNothing(out + s[start..]);
  }

  method ProcessBackslashEscapes(s: Bytes) returns (r: Option<Bytes>)
    ensures r == Resolved(s)
  {
    hide ResolveFrom, DecodeAt, EscapeAt;
    if BACKSLASH !in s { return Some(s); }
    var out: Bytes := [];
    var i: nat, start: nat := 0, 0;
    assert out + s[0..0] == [];
    AfterEmpty(ResolveFrom(s, 0));
    while i < |s|
      invariant Resolving(s, out, start, i)
    {
      AsciiDecodes(s, i);
      if Copied(s, i) {
        ResolvingCopies(s, out, start, i);
        i := i + DecodeAt(s, i).size - 1;
      } else {
        ghost var before := out;
        if start < i {
          out := out + s[start..i];
        } else {
          assert s[start..i] == [];
          assert out + [] == out;
        }
        if s[i] >= 0x80 {
          ResolvingMalformed(s, before, start, i);
          out := out + [0xEF, 0xBF, 0xBD];
          i := i + 1;
          start := i;
        } else {
          ResolveStep(s, i);
          if i + 1 == |s| { return None; }
          var e := ReadEscape(s, i + 1);
          if e.None? { return None; }
          ResolvingReplaces(s, before, start, i, e.value.0, e.value.1);
          out := out + e.value.0;
          start := e.value.1;
          i := start - 1;
        }
      }
      i := i + 1;
    }
    ResolvedWhole(s, out, start, i);
    if start < |s| {
      out := out + s[start..];
    } else {
      assert s[start..] == [];
      assert out + [] == out;
    }
    return Some(out);
  }
}
