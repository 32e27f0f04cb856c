// The two-pass decoder of multi-line strings against the one-pass decoder of single-line strings: where they read the same.
module TwoPasses {
  import opened Basics
  import opened Utf8
  import opened Strings

  // ----- the code points of a text -----

  /** The code point spelled by what stands between the letter u and a closing brace, with or without text behind it. */
  function Code(w: Bytes, more: bool): Option<Bytes> {
    if w == [] || w[0] != '{' as int || |w| > 7 || (|w| == 1 && !more) then None
    else
      var r := HexValue(w, 1, |w|);
      if IsScalar(r) then Some(Encode(r)) else None
  }

  /** A code point escape: what stands between u and the brace, as written and after joining, and whether text follows. */
  datatype CodeEscape = CodeEscape(written: Bytes, more: bool, joined: Bytes, moreJoined: bool) {
    /** What one pass reads. */
    function Direct(): Option<Bytes> { Code(written, more) }

    /** What two passes read. */
    function Late(): Option<Bytes> { Code(joined, moreJoined) }
  }

  function EscapeOf(s: Bytes, i: nat, e: nat): CodeEscape
    requires i + 2 <= e < |s|
  {
    var w := s[i + 2..e];
    CodeEscape(w, e + 1 < |s|, JoinFrom(w, 0), JoinFrom(s, e + 1) != [])
  }

  /**
   * The code point escapes of s[i..], in order; None if the text holds an escape that neither decoder reads: an unknown
   * letter, a backslash at the end, or a code point without a closing brace.
   */
  function Codes(s: Bytes, i: nat): Option<seq<CodeEscape>>
    requires i <= |s|
    decreases |s| - i
  {
    if i == |s| then Some([])
    else if s[i] != BACKSLASH then Codes(s, Next(s, i))
    else if i + 1 == |s| then None
    else if SpaceAt(s, i + 1) then Codes(s, SkipSpace(s, i + 1))
    else if s[i + 1] != 'u' as int then (if Simple(s[i + 1]).Some? then Codes(s, i + 2) else None)
    else
      var e := BraceFrom(s, i + 2);
      if e == |s| then None
      else
        var rest :- Codes(s, e + 1);
        Some([EscapeOf(s, i, e)] + rest)
  }

  predicate AllDirect(es: seq<CodeEscape>) { forall k :: 0 <= k < |es| ==> es[k].Direct().Some? }
  predicate AllLate(es: seq<CodeEscape>) { forall k :: 0 <= k < |es| ==> es[k].Late().Some? }
  predicate AllSame(es: seq<CodeEscape>) { forall k :: 0 <= k < |es| ==> es[k].Direct() == es[k].Late() }

  /** Two decodings of a text: each succeeds if it can read all escapes, and both give the same if they read the same. */
  predicate Reconciled(es: Option<seq<CodeEscape>>, one: Option<Bytes>, two: Option<Bytes>) {
    if es.None? then one.None? && two.None?
    else
      && (one.Some? <==> AllDirect(es.value))
      && (two.Some? <==> AllLate(es.value))
      && (one.Some? && two.Some? ==> (one == two <==> AllSame(es.value)))
  }

  lemma ConsAll(e: CodeEscape, es: seq<CodeEscape>)
    ensures AllDirect([e] + es) <==> e.Direct().Some? && AllDirect(es)
    ensures AllLate([e] + es) <==> e.Late().Some? && AllLate(es)
    ensures AllSame([e] + es) <==> e.Direct() == e.Late() && AllSame(es)
  {
    hide Code;
    var all := [e] + es;
    assert all[0] == e && all[1..] == es && forall k :: 1 <= k < |all| ==> all[k] == es[k - 1];
    if AllDirect(all) { forall k | 0 <= k < |es| ensures es[k].Direct().Some? { assert all[k + 1].Direct().Some?; } }
    if AllLate(all) { forall k | 0 <= k < |es| ensures es[k].Late().Some? { assert all[k + 1].Late().Some?; } }
    if AllSame(all) {
      forall k | 0 <= k < |es| ensures es[k].Direct() == es[k].Late() { assert all[k + 1].Direct() == all[k + 1].Late(); }
    }
  }

  lemma AfterSame(p: Bytes, a: Option<Bytes>, b: Option<Bytes>)
    ensures After(p, a).Some? <==> a.Some?
    ensures After(p, a) == After(p, b) <==> a == b
  {
    if a.Some? && b.Some? {
      assert (p + a.value)[|p|..] == a.value && (p + b.value)[|p|..] == b.value;
    }
  }

  /** Different code points are written differently from their first bytes on. */
  lemma CodesDiffer(r: Rune, q: Rune, x: Bytes, y: Bytes)
    requires IsScalar(r) && IsScalar(q) && Encode(r) + x == Encode(q) + y
    ensures r == q && x == y
  {
    hide Encode, IsScalar;
    EncodeDecodes(r);
    EncodeDecodes(q);
    StartsDecode(r, x);
    StartsDecode(q, y);
    var z := Encode(r) + x;
    assert z[|Encode(r)|..] == x && z[|Encode(q)|..] == y;
  }

  lemma StartsDecode(r: Rune, x: Bytes)
    requires IsScalar(r)
    ensures DecodeAt(Encode(r) + x, 0) == Decoded(r, |Encode(r)|) && |Encode(r)| > 0
  {
    EncodeDecodes(r);
    EncodedIsWellFormed(r);
    var z := Encode(r) + x;
    var n := |Encode(r)|;
    assert z[0..n] == Encode(r)[0..n];
    hide DecodeAt, Encode;
    DecodeLocal(Encode(r), 0, z, 0);
  }

  lemma EncodedIsWellFormed(r: Rune)
    requires IsScalar(r)
    ensures |Encode(r)| > 0 && (r == RUNE_ERROR ==> |Encode(r)| == 3)
  {}

  lemma ConsReconciled(e: CodeEscape, es: Option<seq<CodeEscape>>, one: Option<Bytes>, two: Option<Bytes>)
    requires Reconciled(es, one, two)
    ensures var a := if e.Direct().Some? then After(e.Direct().value, one) else None;
      var b := if e.Late().Some? then After(e.Late().value, two) else None;
      Reconciled(if es.Some? then Some([e] + es.value) else None, a, b)
  {
    hide AllDirect, AllLate, AllSame, Code;
    if es.Some? {
      ConsAll(e, es.value);
      if e.Direct().Some? && e.Late().Some? {
        if e.Direct() == e.Late() {
          AfterSame(e.Direct().value, one, two);
        } else if one.Some? && two.Some? {
          CodesApart(e, one.value, two.value);
        }
      }
    }
  }

  lemma CodesApart(e: CodeEscape, x: Bytes, y: Bytes)
    requires e.Direct().Some? && e.Late().Some? && e.Direct() != e.Late()
    ensures e.Direct().value + x != e.Late().value + y
  {
    hide Encode, IsScalar;
    var r, q := HexValue(e.written, 1, |e.written|), HexValue(e.joined, 1, |e.joined|);
    if Encode(r) + x == Encode(q) + y { CodesDiffer(r, q, x, y); }
  }

  // ----- an escape in its text -----

  /** What a decoder makes of a code point is what stands between the u and the brace. */
  lemma CodePointIsCode(s: Bytes, i: nat)
    requires i + 1 < |s| && s[i + 1] == 'u' as int
    ensures var e := BraceFrom(s, i + 2);
      if e == |s| then CodePoint(s, i + 1) == None
      else CodePoint(s, i + 1) == match Code(s[i + 2..e], e + 1 < |s|) case None => None case Some(b) => Some((b, e + 1))
  {
    var e := BraceFrom(s, i + 2);
    BraceSpec(s, i + 2);
    if e == |s| {
      NoBraceNoCodePoint(s, i + 1);
    } else if i + 4 < |s| && s[i + 2] == '{' as int {
      var w := s[i + 2..e];
      HexShift(s, i + 3, w, 1, e - (i + 3));
    }
  }

  lemma {:induction false} BraceSpec(s: Bytes, i: nat)
    requires i <= |s|
    ensures var j := BraceFrom(s, i); (j < |s| ==> s[j] == '}' as int) && forall k :: i <= k < j ==> s[k] != '}' as int
    decreases |s| - i
  {
    if i < |s| && s[i] != '}' as int { BraceSpec(s, i + 1); }
  }

  /** s[i..i + n] and t[j..j + n] are the same text. */
  predicate Same(s: Bytes, i: nat, t: Bytes, j: nat, n: nat) {
    i + n <= |s| && j + n <= |t| && forall k :: i <= k < i + n ==> t[j + (k - i)] == s[k]
  }

  lemma {:induction false} HexShift(s: Bytes, i: nat, t: Bytes, j: nat, n: nat)
    requires Same(s, i, t, j, n)
    ensures HexValue(s, i, i + n) == HexValue(t, j, j + n)
    decreases n
  {
    if n > 0 {
      assert t[j + (i - i)] == s[i];
      HexShift(s, i + 1, t, j + 1, n - 1);
    }
  }

  lemma NoBraceNoCodePoint(s: Bytes, i: nat)
    requires i < |s| && BraceFrom(s, i + 1) == |s|
    ensures CodePoint(s, i) == None
  {
    BraceSpec(s, i + 1);
    if i + 3 < |s| { BraceSpec(s, i + 2); }
  }

  lemma {:induction false} BraceAt(s: Bytes, i: nat, e: nat)
    requires i <= e <= |s| && (forall k :: i <= k < e ==> s[k] != '}' as int) && (e < |s| ==> s[e] == '}' as int)
    ensures BraceFrom(s, i) == e
    decreases e - i
  {
    if i < e { BraceAt(s, i + 1, e); }
  }

  /** Joining invents nothing. */
  lemma {:induction false} JoinTakes(s: Bytes, i: nat, c: Byte)
    requires i <= |s| && (forall k :: i <= k < |s| ==> s[k] != c) && c != BACKSLASH
    ensures c !in JoinFrom(s, i)
    decreases |s| - i
  {
    hide SpaceAt;
    if i < |s| {
      if s[i] != BACKSLASH || i + 1 == |s| { JoinTakes(s, i + 1, c); }
      else if s[i + 1] == BACKSLASH { JoinTakes(s, i + 2, c); }
      else if SpaceAt(s, i + 1) { JoinTakes(s, SkipSpace(s, i + 1), c); }
      else { JoinTakes(s, i + 1, c); }
    }
  }

  /** A slice that ends in front of a brace has the spaces of the whole. */
  lemma SameSpace(s: Bytes, a: nat, e: nat, k: nat)
    requires a <= k <= e < |s| && s[e] == '}' as int
    ensures var w := s[a..e]; SpaceAt(s, k) == SpaceAt(w, k - a)
    ensures SpaceAt(s, k) ==> k + DecodeAt(s, k).size <= e && DecodeAt(s[a..e], k - a) == DecodeAt(s, k)
  {
    var w := s[a..e];
    AsciiDecodes(s, e);
    if SpaceAt(s, k) {
      Trailing(s, k);
      var n := DecodeAt(s, k).size;
      SliceOfSlice(s, a, e, k - a, k - a + n);
      DecodeLocal(s, k, w, k - a);
    }
    if SpaceAt(w, k - a) {
      SliceOfSlice(s, a, e, k - a, k - a + DecodeAt(w, k - a).size);
      DecodeLocal(w, k - a, s, k);
    }
  }

  lemma {:induction false} SameSkip(s: Bytes, a: nat, e: nat, k: nat)
    requires a <= k <= e < |s| && s[e] == '}' as int
    ensures var w := s[a..e]; SkipSpace(s, k) == a + SkipSpace(w, k - a)
    decreases e - k
  {
    hide SpaceAt;
    SameSpace(s, a, e, k);
    SpaceInside(s[a..e], k - a);
    if SpaceAt(s, k) { SameSkip(s, a, e, k + DecodeAt(s, k).size); }
  }

  lemma SpaceInside(w: Bytes, k: nat)
    requires k <= |w|
    ensures SpaceAt(w, k) ==> k < |w| && DecodeAt(w, k).size > 0
  {}

  /** What joining leaves of the next character or escape, and where the one after it starts. */
  function JoinStep(s: Bytes, k: nat): (r: (Bytes, nat))
    requires k < |s|
    ensures k < r.1 <= |s|
  {
    if s[k] != BACKSLASH || k + 1 == |s| then ([s[k]], k + 1)
    else if s[k + 1] == BACKSLASH then ([BACKSLASH, BACKSLASH], k + 2)
    else if SpaceAt(s, k + 1) then ([], SkipSpace(s, k + 1))
    else ([BACKSLASH], k + 1)
  }

  lemma JoinUnfolds(s: Bytes, k: nat)
    requires k < |s|
    ensures JoinFrom(s, k) == JoinStep(s, k).0 + JoinFrom(s, JoinStep(s, k).1)
  {
    hide SpaceAt;
    var rest := JoinFrom(s, JoinStep(s, k).1);
    assert [] + rest == rest;
  }

  lemma SameStep(s: Bytes, a: nat, e: nat, k: nat)
    requires a <= k < e < |s| && s[e] == '}' as int
    ensures var r := JoinStep(s, k); r.1 <= e && JoinStep(s[a..e], k - a) == (r.0, r.1 - a)
  {
    hide SpaceAt, SkipSpace;
    BraceIsNoSpace(s, e);
    if s[k] == BACKSLASH && k + 1 < e {
      SameSpace(s, a, e, k + 1);
      SameSkip(s, a, e, k + 1);
    }
  }

  /** The two parts of a text in front of and behind a brace are joined separately. */
  lemma {:induction false} JoinSplits(s: Bytes, a: nat, e: nat, k: nat)
    requires a <= k <= e < |s| && s[e] == '}' as int
    ensures JoinFrom(s, k) == JoinFrom(s[a..e], k - a) + JoinFrom(s, e)
    decreases e - k
  {
    hide JoinFrom, JoinStep;
    var w := s[a..e];
    if k == e {
      JoinNothing(w);
    } else {
      JoinUnfolds(s, k);
      JoinUnfolds(w, k - a);
      SameStep(s, a, e, k);
      var r := JoinStep(s, k);
      JoinSplits(s, a, e, r.1);
      Assoc(r.0, JoinFrom(w, r.1 - a), JoinFrom(s, e));
    }
  }

  lemma BraceIsNoSpace(s: Bytes, e: nat)
    requires e < |s| && s[e] == '}' as int
    ensures !SpaceAt(s, e)
  {
    AsciiDecodes(s, e);
  }

  // ----- side by side -----

  lemma UIsNoSpace(s: Bytes, i: nat)
    requires i < |s| && s[i] == 'u' as int
    ensures !SpaceAt(s, i)
  {
    AsciiDecodes(s, i);
  }

  /** Where t[j..] starts with s[i..k] and goes on with rest, so do its parts. */
  lemma Prefix(s: Bytes, i: nat, k: nat, t: Bytes, j: nat, rest: Bytes)
    requires i <= k <= |s| && j <= |t| && t[j..] == s[i..k] + rest
    ensures j + (k - i) <= |t| && t[j..j + (k - i)] == s[i..k] && t[j + (k - i)..] == rest
    ensures Same(s, i, t, j, k - i)
  {
    var n := k - i;
    assert t[j..j + n] == t[j..][..n];
    assert t[j + n..] == t[j..][n..];
    forall m | i <= m < k ensures t[j + (m - i)] == s[m] {
      assert t[j..][m - i] == s[i..k][m - i];
    }
  }

  lemma {:induction false} SkipStaysValid(s: Bytes, i: nat)
    requires i <= |s| && ValidFrom(s, i)
    ensures ValidFrom(s, SkipSpace(s, i))
    decreases |s| - i
  {
    if SpaceAt(s, i) {
      SkipStaysValid(s, i + DecodeAt(s, i).size);
    }
  }

  /** Validity carries on to any ASCII character further on. */
  lemma {:induction false} ValidThrough(s: Bytes, i: nat, j: nat)
    requires i <= j < |s| && s[j] < 0x80 && ValidFrom(s, i)
    ensures ValidFrom(s, j)
    decreases j - i
  {
    if i < j {
      AsciiDecodes(s, i);
      if s[i] >= 0x80 { HighBytes(s, i); }
      ValidThrough(s, Next(s, i), j);
    }
  }

  lemma ValidAfterBrace(s: Bytes, i: nat, e: nat)
    requires i <= e < |s| && s[e] == '}' as int && ValidFrom(s, i)
    ensures ValidFrom(s, e + 1)
  {
    ValidThrough(s, i, e);
    AsciiDecodes(s, e);
  }

  lemma BothAtEnd(s: Bytes, i: nat, t: Bytes, j: nat)
    requires i == |s| && j <= |t| && t[j..] == []
    ensures ResolveFrom(t, j) == Some([]) == UnescapeFrom(s, i)
  {
    assert |t[j..]| == |t| - j;
  }

  lemma BothAtBareBackslash(s: Bytes, i: nat, t: Bytes, j: nat)
    requires i + 1 == |s| && s[i] == BACKSLASH && j <= |t| && t[j..] == JoinFrom(s, i)
    ensures ResolveFrom(t, j) == None == UnescapeFrom(s, i)
  {
    assert t[j..] == [BACKSLASH];
    assert t[j] == t[j..][0];
  }

  lemma BothSkip(s: Bytes, i: nat)
    requires i + 1 < |s| && s[i] == BACKSLASH && SpaceAt(s, i + 1) && ValidFrom(s, i)
    ensures var k := SkipSpace(s, i + 1);
      JoinFrom(s, i) == JoinFrom(s, k) && UnescapeFrom(s, i) == UnescapeFrom(s, k) && ValidFrom(s, k)
  {
    SpaceIsNoBackslash(s, i + 1);
    AsciiDecodes(s, i);
    SkipStaysValid(s, i + 1);
  }

  lemma SpaceIsNoBackslash(s: Bytes, i: nat)
    requires SpaceAt(s, i)
    ensures s[i] != BACKSLASH
  {
    AsciiDecodes(s, i);
  }

  /** Both passes copy a rune other than the backslash. */
  lemma RuneCopies(s: Bytes, i: nat, t: Bytes, j: nat)
    requires i < |s| && s[i] != BACKSLASH && !Malformed(s, i) && j <= |t| && t[j..] == JoinFrom(s, i)
    ensures var k := Next(s, i);
      && j + (k - i) <= |t|
      && t[j + (k - i)..] == JoinFrom(s, k)
      && j < |t|
      && ResolveFrom(t, j) == After(s[i..k], ResolveFrom(t, j + (k - i)))
      && UnescapeFrom(s, i) == After(s[i..k], UnescapeFrom(s, k))
  {
    hide JoinFrom, EscapeAt, SpaceAt;
    var k := Next(s, i);
    AsciiDecodes(s, i);
    if s[i] >= 0x80 { HighBytes(s, i); }
    JoinCopies(s, i, k);
    Prefix(s, i, k, t, j, JoinFrom(s, k));
    DecodeLocal(s, i, t, j);
    assert t[j + (i - i)] == s[i];
    assert s[i] < 0x80 ==> s[i..k] == [s[i]];
  }

  lemma LetterCopies(s: Bytes, i: nat, t: Bytes, j: nat)
    requires i + 1 < |s| && s[i] == BACKSLASH && !SpaceAt(s, i + 1) && j <= |t| && t[j..] == JoinFrom(s, i)
    requires s[i + 1] != 'u' as int && ValidFrom(s, i)
    ensures j + 2 <= |t| && t[j] == BACKSLASH && t[j + 1] == s[i + 1] && t[j + 2..] == JoinFrom(s, i + 2)
    ensures Simple(s[i + 1]).Some? ==> ValidFrom(s, i + 2)
  {
    hide SpaceAt, JoinFrom;
    AsciiDecodes(s, i);
    AsciiDecodes(s, i + 1);
    if s[i + 1] != BACKSLASH {
      JoinBehindBackslash(s, i, i + 2);
    } else {
      JoinPair(s, i);
    }
    Prefix(s, i, i + 2, t, j, JoinFrom(s, i + 2));
    assert t[j + (i - i)] == s[i] && t[j + ((i + 1) - i)] == s[i + 1];
  }

  lemma JoinPair(s: Bytes, i: nat)
    requires i + 1 < |s| && s[i] == BACKSLASH && s[i + 1] == BACKSLASH
    ensures JoinFrom(s, i) == s[i..i + 2] + JoinFrom(s, i + 2)
  {
    assert s[i..i + 2] == [BACKSLASH, BACKSLASH];
  }

  lemma JoinBehindBackslash(s: Bytes, i: nat, k: nat)
    requires i + 1 < k <= |s| && s[i] == BACKSLASH && s[i + 1] != BACKSLASH && !SpaceAt(s, i + 1) && Without(s, i + 1, k)
    ensures JoinFrom(s, i) == s[i..k] + JoinFrom(s, k)
  {
    hide SpaceAt;
    JoinCopies(s, i + 1, k);
    Assoc([BACKSLASH], s[i + 1..k], JoinFrom(s, k));
    assert s[i..k] == [BACKSLASH] + s[i + 1..k];
  }

  lemma SkipsNothing(es: Option<seq<CodeEscape>>, p: Bytes, one: Option<Bytes>, two: Option<Bytes>)
    requires Reconciled(es, one, two)
    ensures Reconciled(es, After(p, one), After(p, two))
  {
    hide AllDirect, AllLate, AllSame;
    AfterSame(p, one, two);
    AfterSame(p, two, one);
  }

  /** What follows a code point escape in the joined text: what stands between u and the brace, joined, the brace, and the rest. */
  lemma EscapeJoins(s: Bytes, i: nat, t: Bytes, j: nat)
    requires i + 1 < |s| && s[i] == BACKSLASH && s[i + 1] == 'u' as int && j <= |t| && t[j..] == JoinFrom(s, i)
    ensures j + 2 <= |t| && t[j] == BACKSLASH && t[j + 1] == 'u' as int && t[j + 2..] == JoinFrom(s, i + 2)
  {
    hide SpaceAt;
    UIsNoSpace(s, i + 1);
    var rest := JoinFrom(s, i + 2);
    assert JoinFrom(s, i) == [BACKSLASH] + ([s[i + 1]] + rest);
    assert t[j..][0] == BACKSLASH && t[j..][1] == 'u' as int;
    assert t[j + 2..] == t[j..][2..] == rest;
  }

  lemma JoinedBrace(s: Bytes, i: nat, t: Bytes, j: nat)
    requires i <= |s| && j <= |t| && t[j..] == JoinFrom(s, i)
    ensures var e := BraceFrom(s, i);
      if e == |s| then BraceFrom(t, j) == |t|
      else
        var f := BraceFrom(t, j);
        f < |t| && t[j..f] == JoinFrom(s[i..e], 0) && t[f + 1..] == JoinFrom(s, e + 1)
  {
    hide SpaceAt;
    BraceSpec(s, i);
    var e := BraceFrom(s, i);
    if e == |s| {
      JoinTakes(s, i, '}' as int);
      forall k | j <= k < |t| ensures t[k] != '}' as int { assert t[k] == t[j..][k - j]; }
      BraceAt(t, j, |t|);
    } else {
      JoinSplits(s, i, e, i);
      var w := s[i..e];
      assert JoinFrom(s, e) == [s[e]] + JoinFrom(s, e + 1);
      JoinTakes(w, 0, '}' as int);
      hide JoinFrom, BraceFrom;
      FirstBrace(t, j, JoinFrom(w, 0), JoinFrom(s, e + 1));
    }
  }

  lemma FirstBrace(t: Bytes, j: nat, v: Bytes, rest: Bytes)
    requires j <= |t| && t[j..] == v + (['}' as int] + rest) && '}' as int !in v
    ensures var f := j + |v|; f < |t| && BraceFrom(t, j) == f && t[j..f] == v && t[f + 1..] == rest
  {
    var f := j + |v|;
    forall k | j <= k < f ensures t[k] != '}' as int { assert t[k] == t[j..][k - j] == v[k - j]; }
    assert t[f] == t[j..][|v|];
    BraceAt(t, j, f);
    assert t[j..f] == t[j..][..|v|] == v;
    assert t[f + 1..] == t[j..][|v| + 1..] == rest;
  }

  /** A code point escape: one pass reads what is written, two passes read it joined, and both go on behind the brace. */
  lemma EscapeTaken(s: Bytes, i: nat, t: Bytes, j: nat)
    requires i + 1 < |s| && s[i] == BACKSLASH && s[i + 1] == 'u' as int && j <= |t| && t[j..] == JoinFrom(s, i)
    requires BraceFrom(s, i + 2) < |s|
    ensures j + 2 <= |t| && t[j] == BACKSLASH && BraceFrom(t, j + 2) < |t|
    ensures var e, f := BraceFrom(s, i + 2), BraceFrom(t, j + 2); var c := EscapeOf(s, i, e);
      && t[f + 1..] == JoinFrom(s, e + 1)
      && EscapeAt(s, i + 1) == (if c.Direct().Some? then Some((c.Direct().value, e + 1)) else None)
      && EscapeAt(t, j + 1) == (if c.Late().Some? then Some((c.Late().value, f + 1)) else None)
  {
    hide SpaceAt, JoinFrom, Code, CodePoint, BraceFrom;
    EscapeJoins(s, i, t, j);
    JoinedBrace(s, i + 2, t, j + 2);
    CodePointIsCode(s, i);
    CodePointIsCode(t, j);
    var f := BraceFrom(t, j + 2);
    assert f + 1 < |t| <==> t[f + 1..] != [];
  }

  lemma NeitherReads(s: Bytes, i: nat, t: Bytes, j: nat)
    requires i + 1 < |s| && s[i] == BACKSLASH && s[i + 1] == 'u' as int && j <= |t| && t[j..] == JoinFrom(s, i)
    requires BraceFrom(s, i + 2) == |s|
    ensures j + 2 <= |t| && t[j] == BACKSLASH && EscapeAt(s, i + 1) == None == EscapeAt(t, j + 1)
  {
    hide SpaceAt, JoinFrom, Code, CodePoint, BraceFrom;
    EscapeJoins(s, i, t, j);
    JoinedBrace(s, i + 2, t, j + 2);
    CodePointIsCode(s, i);
    CodePointIsCode(t, j);
  }

  lemma BackslashReads(s: Bytes, i: nat)
    requires i + 1 < |s| && s[i] == BACKSLASH
    ensures var e := EscapeAt(s, i + 1);
      && ResolveFrom(s, i) == (if e.None? then None else After(e.value.0, ResolveFrom(s, e.value.1)))
      && (!SpaceAt(s, i + 1) ==> UnescapeFrom(s, i) == if e.None? then None else After(e.value.0, UnescapeFrom(s, e.value.1)))
  {
    hide EscapeAt, SpaceAt;
  }

  /** Decoding s[i..] in one pass, and what joining leaves of it in a second one. */
  lemma {:induction false} TwoPassesFrom(s: Bytes, i: nat, t: Bytes, j: nat)
    requires i <= |s| && j <= |t| && t[j..] == JoinFrom(s, i) && ValidFrom(s, i)
    ensures Reconciled(Codes(s, i), UnescapeFrom(s, i), ResolveFrom(t, j))
    decreases |s| - i
  {
    hide EscapeAt, SpaceAt, JoinFrom, ResolveFrom, UnescapeFrom, BraceFrom, Reconciled, Simple;
    if i == |s| {
      JoinNothing(s);
      BothAtEnd(s, i, t, j);
      NothingReconciled();
    } else if s[i] != BACKSLASH {
      var k := Next(s, i);
      RuneCopies(s, i, t, j);
      TwoPassesFrom(s, k, t, j + (k - i));
      SkipsNothing(Codes(s, k), s[i..k], UnescapeFrom(s, k), ResolveFrom(t, j + (k - i)));
    } else if i + 1 == |s| {
      BothAtBareBackslash(s, i, t, j);
      BothNone();
    } else if SpaceAt(s, i + 1) {
      BothSkip(s, i);
      TwoPassesFrom(s, SkipSpace(s, i + 1), t, j);
    } else if s[i + 1] != 'u' as int {
      LetterPasses(s, i, t, j);
    } else {
      CodePasses(s, i, t, j);
    }
  }

  lemma NothingReconciled()
    ensures Reconciled(Some([]), Some([]), Some([]))
  {}

  lemma BothNone()
    ensures Reconciled(None, None, None)
  {}

  lemma {:induction false} LetterPasses(s: Bytes, i: nat, t: Bytes, j: nat)
    requires i + 1 < |s| && s[i] == BACKSLASH && s[i + 1] != 'u' as int && !SpaceAt(s, i + 1)
    requires j <= |t| && t[j..] == JoinFrom(s, i) && ValidFrom(s, i)
    ensures Reconciled(Codes(s, i), UnescapeFrom(s, i), ResolveFrom(t, j))
    decreases |s| - i, 0
  {
    hide SpaceAt, JoinFrom, ResolveFrom, UnescapeFrom, BraceFrom, Reconciled, Simple, CodePoint;
    LetterCopies(s, i, t, j);
    BackslashReads(s, i);
    BackslashReads(t, j);
    var c := Simple(s[i + 1]);
    if c.Some? {
      TwoPassesFrom(s, i + 2, t, j + 2);
      SkipsNothing(Codes(s, i + 2), [c.value], UnescapeFrom(s, i + 2), ResolveFrom(t, j + 2));
    } else {
      BothNone();
    }
  }

  lemma {:induction false} CodePasses(s: Bytes, i: nat, t: Bytes, j: nat)
    requires i + 1 < |s| && s[i] == BACKSLASH && s[i + 1] == 'u' as int && !SpaceAt(s, i + 1)
    requires j <= |t| && t[j..] == JoinFrom(s, i) && ValidFrom(s, i)
    ensures Reconciled(Codes(s, i), UnescapeFrom(s, i), ResolveFrom(t, j))
    decreases |s| - i, 0
  {
    hide SpaceAt, JoinFrom, ResolveFrom, UnescapeFrom, BraceFrom, Reconciled, EscapeAt, EscapeOf, Code;
    BackslashReads(s, i);
    var e := BraceFrom(s, i + 2);
    if e == |s| {
      NeitherReads(s, i, t, j);
      BackslashReads(t, j);
      BothNone();
    } else {
      EscapeTaken(s, i, t, j);
      BackslashReads(t, j);
      var f := BraceFrom(t, j + 2);
      BraceSpec(s, i + 2);
      ValidAfterBrace(s, i, e);
      TwoPassesFrom(s, e + 1, t, f + 1);
      ConsReconciled(EscapeOf(s, i, e), Codes(s, e + 1), UnescapeFrom(s, e + 1), ResolveFrom(t, f + 1));
    }
  }

  // ----- when the decoders agree -----

  /** What joining leaves of valid text is valid. */
  lemma {:induction false} JoinStaysValid(s: Bytes, i: nat, t: Bytes, j: nat)
    requires i <= |s| && j <= |t| && t[j..] == JoinFrom(s, i) && ValidFrom(s, i)
    ensures ValidFrom(t, j)
    decreases |s| - i
  {
    hide SpaceAt, JoinFrom, DecodeAt;
    if i == |s| {
      JoinNothing(s);
      assert |t[j..]| == 0;
    } else if s[i] != BACKSLASH {
      RuneCopies(s, i, t, j);
      CopiedRune(s, i, t, j);
      var k := Next(s, i);
      JoinStaysValid(s, k, t, j + (k - i));
    } else {
      AsciiDecodes(s, i);
      if i + 1 < |s| && s[i + 1] != BACKSLASH && SpaceAt(s, i + 1) {
        BothJoin(s, i);
        SkipStaysValid(s, i + 1);
        JoinStaysValid(s, SkipSpace(s, i + 1), t, j);
      } else if i + 1 < |s| && s[i + 1] == BACKSLASH {
        JoinPair(s, i);
        Prefix(s, i, i + 2, t, j, JoinFrom(s, i + 2));
        assert t[j + (i - i)] == s[i] && t[j + (i + 1 - i)] == s[i + 1];
        AsciiDecodes(s, i + 1);
        AsciiDecodes(t, j);
        AsciiDecodes(t, j + 1);
        JoinStaysValid(s, i + 2, t, j + 2);
      } else {
        JoinLone(s, i);
        Prefix(s, i, i + 1, t, j, JoinFrom(s, i + 1));
        assert t[j + (i - i)] == s[i];
        AsciiDecodes(t, j);
        JoinStaysValid(s, i + 1, t, j + 1);
      }
    }
  }

  lemma BothJoin(s: Bytes, i: nat)
    requires i + 1 < |s| && s[i] == BACKSLASH && s[i + 1] != BACKSLASH && SpaceAt(s, i + 1)
    ensures JoinFrom(s, i) == JoinFrom(s, SkipSpace(s, i + 1))
  {}

  lemma JoinLone(s: Bytes, i: nat)
    requires i < |s| && s[i] == BACKSLASH && (i + 1 < |s| ==> s[i + 1] != BACKSLASH && !SpaceAt(s, i + 1))
    ensures JoinFrom(s, i) == s[i..i + 1] + JoinFrom(s, i + 1)
  {
    assert s[i..i + 1] == [s[i]];
  }

  lemma CopiedRune(s: Bytes, i: nat, t: Bytes, j: nat)
    requires i < |s| && s[i] != BACKSLASH && !Malformed(s, i) && j <= |t| && t[j..] == JoinFrom(s, i)
    ensures j < |t| && DecodeAt(t, j) == DecodeAt(s, i)
  {
    hide JoinFrom;
    var k := Next(s, i);
    AsciiDecodes(s, i);
    if s[i] >= 0x80 { HighBytes(s, i); }
    JoinCopies(s, i, k);
    Prefix(s, i, k, t, j, JoinFrom(s, k));
    DecodeLocal(s, i, t, j);
  }

  lemma {:induction false} NothingToResolve(t: Bytes, j: nat)
    requires j <= |t| && ValidFrom(t, j) && BACKSLASH !in t
    ensures ResolveFrom(t, j) == Some(t[j..])
    decreases |t| - j
  {
    if j < |t| {
      AsciiDecodes(t, j);
      var k := Next(t, j);
      NothingToResolve(t, k);
      assert t[j] < 0x80 ==> t[j..k] == [t[j]];
      assert t[j..] == t[j..k] + t[k..];
    } else {
      assert t[j..] == [];
    }
  }

  /**
   * Main result: on valid text the two decoders agree exactly if the text holds an escape that neither of them knows, or
   * every code point escape means the same as written and joined, or each decoder meets one that it cannot read.
   */
  lemma TwoPassesAgreeExactly(s: Bytes)
    requires ValidFrom(s, 0)
    ensures var es := Codes(s, 0);
      Resolved(JoinFrom(s, 0)) == UnescapeFrom(s, 0) <==>
        es.None? || AllSame(es.value) || (!AllDirect(es.value) && !AllLate(es.value))
  {
    hide ResolveFrom, UnescapeFrom, JoinFrom, AllSame, AllDirect, AllLate, Codes;
    var t := JoinFrom(s, 0);
    assert t[0..] == t;
    TwoPassesFrom(s, 0, t, 0);
    JoinStaysValid(s, 0, t, 0);
    if BACKSLASH !in t { NothingToResolve(t, 0); }
    if Codes(s, 0).Some? && AllSame(Codes(s, 0).value) { SameIsBoth(Codes(s, 0).value); }
  }

  lemma SameIsBoth(es: seq<CodeEscape>)
    requires AllSame(es)
    ensures AllDirect(es) <==> AllLate(es)
  {
    hide Code;
    if AllDirect(es) { forall k | 0 <= k < |es| ensures es[k].Late().Some? { assert es[k].Direct().Some?; } }
    if AllLate(es) { forall k | 0 <= k < |es| ensures es[k].Direct().Some? { assert es[k].Late().Some?; } }
  }

  /**
   * When an escape means the same both ways: without a whitespace escape between u and the brace, unless its braces are
   * empty and nothing but whitespace escapes stands behind them; and with one, if the joined spelling has the same value.
   */
  lemma EscapeMeansTheSame(s: Bytes, i: nat, e: nat)
    requires i + 2 <= e < |s|
    ensures var c := EscapeOf(s, i, e);
      c.joined == c.written ==>
        (c.Direct() == c.Late() <==> !(c.written == ['{' as int] && e + 1 < |s| && JoinFrom(s, e + 1) == []))
  {
    var c := EscapeOf(s, i, e);
    var w := c.written;
    if e + 1 == |s| { JoinNothing(s); }
    if w == ['{' as int] {
      assert HexValue(w, 1, 1) == 0;
      assert Code(w, true) == Some(Encode(0));
    }
  }

  /** Joining leaves a text without backslashes as it is. */
  lemma NothingToJoin(w: Bytes)
    requires BACKSLASH !in w
    ensures JoinFrom(w, 0) == w
  {
    JoinCopies(w, 0, |w|);
    JoinNothing(w);
    assert w[0..|w|] == w && w + [] == w;
  }

  /** Every code point escape is made of hexadecimal digits, at least one, between its braces. */
  predicate Hexadecimal(c: CodeEscape) {
    |c.written| >= 2 && c.written[0] == '{' as int && forall k :: 1 <= k < |c.written| ==> HexTable(c.written[k]) > 0 || c.written[k] == '0' as int
  }

  /** On valid text whose code points are written in hexadecimal digits, the two passes do what the one pass does. */
  lemma TwoPassesAreOne(s: Bytes)
    requires ValidFrom(s, 0) && (Codes(s, 0).Some? ==> forall k :: 0 <= k < |Codes(s, 0).value| ==> Hexadecimal(Codes(s, 0).value[k]))
    ensures Resolved(JoinFrom(s, 0)) == UnescapeFrom(s, 0)
  {
    hide ResolveFrom, UnescapeFrom, JoinFrom, Codes, Code, Hexadecimal;
    TwoPassesAgreeExactly(s);
    if Codes(s, 0).Some? {
      var es := Codes(s, 0).value;
      forall k | 0 <= k < |es| ensures es[k].Direct() == es[k].Late() { HexadecimalIsSame(s, 0, k); }
    }
  }

  lemma {:induction false} HexadecimalIsSame(s: Bytes, i: nat, k: nat)
    requires i <= |s| && Codes(s, i).Some? && k < |Codes(s, i).value| && Hexadecimal(Codes(s, i).value[k])
    ensures var c := Codes(s, i).value[k]; c.Direct() == c.Late()
    decreases |s| - i
  {
    hide SpaceAt, BraceFrom, Code, EscapeOf, Hexadecimal;
    if s[i] != BACKSLASH {
      HexadecimalIsSame(s, Next(s, i), k);
    } else if SpaceAt(s, i + 1) {
      HexadecimalIsSame(s, SkipSpace(s, i + 1), k);
    } else if s[i + 1] != 'u' as int {
      HexadecimalIsSame(s, i + 2, k);
    } else {
      var e := BraceFrom(s, i + 2);
      if k == 0 {
        PlainEscapeIsSame(s, i, e);
      } else {
        HexadecimalIsSame(s, e + 1, k - 1);
        assert Codes(s, i).value[k] == Codes(s, e + 1).value[k - 1];
      }
    }
  }

  lemma PlainEscapeIsSame(s: Bytes, i: nat, e: nat)
    requires i + 2 <= e < |s| && Hexadecimal(EscapeOf(s, i, e))
    ensures EscapeOf(s, i, e).Direct() == EscapeOf(s, i, e).Late()
  {
    NothingToJoin(s[i + 2..e]);
    EscapeMeansTheSame(s, i, e);
  }

  /** Empty braces in front of a last whitespace escape: one pass reads a NUL, two passes fail. */
  lemma EmptyBracesDiffer()
    ensures var s: Bytes := [0x5C, 0x75, 0x7B, 0x7D, 0x5C, 0x20];
      UnescapeFrom(s, 0) == Some([0]) && Resolved(JoinFrom(s, 0)) == None
  {
    var s: Bytes := [0x5C, 0x75, 0x7B, 0x7D, 0x5C, 0x20];
    AsciiDecodes(s, 1);
    AsciiDecodes(s, 5);
    assert SkipSpace(s, 5) == 6;
    assert UnescapeFrom(s, 4) == Some([]);
    assert CodePoint(s, 1) == Some(([0], 4));
    AfterNothing([0]);
    assert JoinFrom(s, 4) == [];
    var t: Bytes := [0x5C, 0x75, 0x7B, 0x7D];
    JoinBehindBackslash(s, 0, 4);
    assert JoinFrom(s, 0) == t;
    assert CodePoint(t, 1) == None;
    assert t[0] == BACKSLASH;
  }

  /** A whitespace escape between the braces: one pass counts its characters as zeros, two passes drop them. */
  lemma SpaceInBracesDiffers()
    ensures var s: Bytes := [0x5C, 0x75, 0x7B, 0x31, 0x5C, 0x20, 0x32, 0x7D];
      UnescapeFrom(s, 0) == Some(Encode(0x1002)) && Resolved(JoinFrom(s, 0)) == Some([0x12])
  {
    hide Encode;
    var s: Bytes := [0x5C, 0x75, 0x7B, 0x31, 0x5C, 0x20, 0x32, 0x7D];
    AsciiDecodes(s, 1);
    AsciiDecodes(s, 5);
    AsciiDecodes(s, 6);
    assert BraceFrom(s, 5) == 7;
    assert BraceFrom(s, 3) == 7;
    assert HexValue(s, 5, 7) == 2;
    assert HexValue(s, 4, 7) == 2;
    assert Pow16(2) == 256;
    assert HexValue(s, 3, 7) == 0x1002;
    assert UnescapeFrom(s, 8) == Some([]);
    AfterNothing(Encode(0x1002));
    assert SkipSpace(s, 6) == 6;
    assert SkipSpace(s, 5) == 6;
    JoinedAroundSpace(s);
  }

  lemma JoinedAroundSpace(s: Bytes)
    requires s == [0x5C, 0x75, 0x7B, 0x31, 0x5C, 0x20, 0x32, 0x7D]
    ensures Resolved(JoinFrom(s, 0)) == Some([0x12])
  {
    AsciiDecodes(s, 1);
    AsciiDecodes(s, 5);
    AsciiDecodes(s, 6);
    assert SkipSpace(s, 6) == 6;
    assert SkipSpace(s, 5) == 6;
    JoinCopies(s, 6, 8);
    assert JoinFrom(s, 6) == [0x32, 0x7D];
    JoinBehindBackslash(s, 0, 4);
    var t: Bytes := [0x5C, 0x75, 0x7B, 0x31, 0x32, 0x7D];
    assert JoinFrom(s, 0) == t;
    assert BraceFrom(t, 3) == 5;
    assert HexValue(t, 3, 5) == 0x12;
    assert CodePoint(t, 1) == Some(([0x12], 6));
    assert t[0] == BACKSLASH;
    AfterNothing([0x12]);
  }

  /** A whitespace escape in front of the opening brace: one pass fails, two passes read a code point. */
  lemma SpaceBeforeBraceDiffers()
    ensures var s: Bytes := [0x5C, 0x75, 0x5C, 0x20, 0x7B, 0x34, 0x31, 0x7D];
      UnescapeFrom(s, 0) == None && Resolved(JoinFrom(s, 0)) == Some([0x41])
  {
    var s: Bytes := [0x5C, 0x75, 0x5C, 0x20, 0x7B, 0x34, 0x31, 0x7D];
    AsciiDecodes(s, 1);
    AsciiDecodes(s, 3);
    AsciiDecodes(s, 4);
    assert CodePoint(s, 1) == None;
    assert SkipSpace(s, 4) == 4;
    assert SkipSpace(s, 3) == 4;
    JoinCopies(s, 4, 8);
    assert JoinFrom(s, 4) == [0x7B, 0x34, 0x31, 0x7D];
    JoinBehindBackslash(s, 0, 2);
    var t: Bytes := [0x5C, 0x75, 0x7B, 0x34, 0x31, 0x7D];
    assert JoinFrom(s, 2) == JoinFrom(s, 4);
    assert JoinFrom(s, 0) == t;
    assert BraceFrom(t, 3) == 5;
    assert HexValue(t, 3, 5) == 0x41;
    assert CodePoint(t, 1) == Some(([0x41], 6));
    assert t[0] == BACKSLASH;
    AfterNothing([0x41]);
  }
}
