// The multi-line string parsers as they run: the loops over bytes and lines, proved to compute the functions of Multiline.
module MultilineCodecs {
  import opened Basics
  import opened Utf8
  import opened Strings
  import opened Multiline
  import opened StringCodecs

  method NormalizeNewlines(s: Bytes) returns (b: Bytes)
    ensures b == NormalizeFrom(s, 0)
  {
    b := [];
    var i := 0;
    while i < |s|
      invariant i <= |s| && NormalizeFrom(s, 0) == b + NormalizeFrom(s, i)
    {
      var size := NewlineAt(s, i);
      if size > 0 {
        Assoc(b, [LF], NormalizeFrom(s, i + size));
        b := b + [LF];
        i := i + size;
      } else {
        Assoc(b, [s[i]], NormalizeFrom(s, i + 1));
        b := b + [s[i]];
        i := i + 1;
      }
    }
    assert b + [] == b;
  }

  method IsBlankLine(line: Bytes) returns (blank: bool)
    ensures blank == BlankFrom(line, 0)
  {
    var i := 0;
    while i < |line|
      invariant i <= |line| && BlankFrom(line, 0) == BlankFrom(line, i)
    {
      var d := DecodeAt(line, i);
      if !IsWhiteSpace(d.c) { return false; }
      i := i + d.size;
    }
    return true;
  }

  /** Every line is replaced in place; the first one without the indentation makes the whole fail. */
  method MultilineDedent(s: Bytes, prefix: Bytes) returns (r: Option<Bytes>)
    ensures r == Dedent(s, prefix)
  {
    hide Split, BlankFrom;
    var lines: seq<Bytes> := Split(s);
    ghost var all := lines;
    var i := 0;
    OntoNothing(DedentAll(all, prefix));
    assert |lines[..0]| == 0 && lines[0..] == all;
    while i < |lines|
      invariant i <= |lines| == |all| && lines[i..] == all[i..]
      invariant DedentAll(all, prefix) == Onto(lines[..i], DedentAll(lines[i..], prefix))
    {
      var line := lines[i];
      var blank := IsBlankLine(line);
      assert lines[i..][0] == line && lines[i..][1..] == lines[i + 1..];
      if !blank && !(prefix <= line) { return None; }
      var dedented: Bytes := if blank then [] else line[|prefix|..];
      OntoOne(lines[..i], dedented, DedentAll(lines[i + 1..], prefix));
      lines := lines[i := dedented];
      assert lines[..i + 1] == lines[..i] + [dedented];
      i := i + 1;
    }
    assert lines[..i] == lines && lines[i..] == [];
    assert lines + [] == lines;
    return Some(JoinLines(lines));
  }

  function Onto(done: seq<Bytes>, rest: Option<seq<Bytes>>): Option<seq<Bytes>> {
    if rest.Some? then Some(done + rest.value) else None
  }

  lemma OntoNothing(rest: Option<seq<Bytes>>)
    ensures Onto([], rest) == rest
  {
    if rest.Some? { assert [] + rest.value == rest.value; }
  }

  lemma OntoOne(done: seq<Bytes>, line: Bytes, rest: Option<seq<Bytes>>)
    ensures Onto(done, Onto([line], rest)) == Onto(done + [line], rest)
  {
    if rest.Some? { assert done + ([line] + rest.value) == done + [line] + rest.value; }
  }

  /** Splits off the closing line, checks it and removes its indentation from the content. */
  method Undent(s: Bytes) returns (r: Option<Bytes>)
    ensures r == Undented(s)
  {
    var last := LastLF(s, |s|);
    var closing := if last.Some? then s[last.value + 1..] else s;
    var blank := IsBlankLine(closing);
    if !blank { return None; }
    if last.None? { return Some([]); }
    r := MultilineDedent(s[..last.value], closing);
  }

  method CountHashes(b: Bytes) returns (n: nat)
    ensures n == LeadingHashes(b, 0)
  {
    n := 0;
    while n < |b| && b[n] == '#' as int
      invariant n <= |b| && LeadingHashes(b, 0) == n + LeadingHashes(b, n)
    {
      n := n + 1;
    }
  }

  method ParseMultilineRawString(b: Bytes) returns (r: Option<Bytes>)
    ensures r == RawText(b)
  {
    hide Undented, NormalizeFrom;
    var n := CountHashes(b);
    if |b| < n + 3 + (3 + n) { return None; }
    var s := b[n + 3..|b| - (3 + n)];
    if NewlineAt(s, 0) == 0 { return None; }
    s := NormalizeNewlines(s[NewlineAt(s, 0)..]);
    r := Undent(s);
  }

  method ParseMultilineString(b: Bytes) returns (r: Option<Bytes>)
    ensures r == QuotedText(b)
  {
    hide Undented, NormalizeFrom, JoinFrom;
    if |b| < 6 || b[..3] != TRIPLE || b[|b| - 3..] != TRIPLE { return None; }
    var s := b[3..|b| - 3];
    if NewlineAt(s, 0) == 0 { return None; }
    s := NormalizeNewlines(s[NewlineAt(s, 0)..]);
    s := ProcessWhitespaceEscapes(s);
    var content := Undent(s);
    if content.None? { return None; }
    r := ProcessBackslashEscapes(content.value);
  }
}
