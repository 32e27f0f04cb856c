// When a parse that is accepted has closed everything it opened.
module Completeness {
  import opened Basics
  import opened Tokens
  import opened Machine
  import opened Effects
  import opened Laws

  /** All nodes and blocks were closed by the end of the input. */
  predicate Complete(d: Config) {
    d.blocks == [] && d.phase.Between?
  }

  /** What one token does to the number of open blocks. */
  function Brace(t: Token): int {
    if t.id.BraceOpen? then 1 else if t.id.BraceClose? then -1 else 0
  }

  /** Opening braces less closing braces. */
  function Braces(tokens: seq<Token>): int {
    if tokens == [] then 0 else Brace(tokens[0]) + Braces(tokens[1..])
  }

  lemma StepBraces(e: Env, c: Config, t: Token, d: Config)
    requires Step(e, c, t) == Some(d)
    ensures |d.blocks| == |c.blocks| + Brace(t)
  {
    hide Step;
    var mid, eff := StepEffect(e, c, t, d);
    if eff.Ended? { EndKeepsDepth(e, mid, TokenEnd(e, t)); }
    if eff.EndedAndClosed? { EndKeepsDepth(e, mid, t.offset); }
  }

  /** As many blocks are open behind accepted tokens as braces are. */
  lemma {:induction false} RunBraces(e: Env, c: Config, tokens: seq<Token>, d: Config)
    requires Run(e, c, tokens) == Some(d)
    ensures |d.blocks| == |c.blocks| + Braces(tokens)
    decreases |tokens|
  {
    hide Step;
    if tokens != [] {
      var m := Step(e, c, tokens[0]).value;
      StepBraces(e, c, tokens[0], m);
      RunBraces(e, m, tokens[1..], d);
    }
  }

  lemma {:induction false} BracesAppend(a: seq<Token>, b: seq<Token>)
    ensures Braces(a + b) == Braces(a) + Braces(b)
  {
    if a == [] {
      assert a + b == b;
    } else {
      assert (a + b)[1..] == a[1..] + b;
      BracesAppend(a[1..], b);
    }
  }

  // ----- the end of the input -----

  /** Behind the comment that ends a line, with a slashdash that has found nothing to drop. */
  predicate Dangling(c: Config) {
    c.phase.Inside? && c.phase.st.AtEnd? && c.skipEntry
  }

  /** Behind the tokens, EOF meets a slashdash that is pending behind a single-line comment. */
  predicate EofMeetsSlashdash(e: Env, tokens: seq<Token>) {
    var m := Run(e, INITIAL, tokens);
    m.Some? && Dangling(m.value)
  }

  lemma LeavingAtEof(e: Env, c: Config)
    requires c.phase.Inside? && CommitAndLeave(e, c, EOF_TOKEN).Some?
    ensures CommitAndLeave(e, c, EOF_TOKEN).value.phase.Between?
  {}

  /** EOF ends the node it is read in, with one exception. */
  lemma EofEnds(e: Env, c: Config, d: Config)
    requires Shape(c) && Step(e, c, EOF_TOKEN) == Some(d)
    ensures d.phase.Between? <==> !Dangling(c)
  {
    hide CommitAndLeave, Commit, NextEntry, BeforeComment;
    if c.phase.Inside? && CommitAndLeave(e, c.(cont := false), EOF_TOKEN).Some? {
      LeavingAtEof(e, c.(cont := false));
    }
  }

  lemma ParseSplits(e: Env, tokens: seq<Token>, d: Config) returns (m: Config)
    requires ParseAll(e, tokens) == Some(d)
    ensures Run(e, INITIAL, tokens) == Some(m) && Step(e, m, EOF_TOKEN) == Some(d)
  {
    hide Step;
    RunAppend(e, INITIAL, tokens, [EOF_TOKEN]);
    m := Run(e, INITIAL, tokens).value;
    RunOne(e, m, EOF_TOKEN);
  }

  /** What the tokens alone say of the end: every brace is matched, and EOF does not meet a dangling slashdash. */
  predicate ClosesAll(e: Env, tokens: seq<Token>) {
    Braces(tokens) == 0 && !EofMeetsSlashdash(e, tokens)
  }

  /**
   * Main result: in an accepted parse as many blocks are left open as braces are unmatched, the innermost node is left
   * open exactly when EOF meets a slashdash behind a single-line comment, and so everything is closed exactly when
   * neither happens.
   */
  lemma CompleteExactly(e: Env, tokens: seq<Token>, d: Config)
    requires ParseAll(e, tokens) == Some(d)
    ensures |d.blocks| == Braces(tokens)
    ensures d.phase.Inside? <==> EofMeetsSlashdash(e, tokens)
    ensures Complete(d) <==> ClosesAll(e, tokens)
  {
    hide Step;
    var m := ParseSplits(e, tokens, d);
    RunBraces(e, INITIAL, tokens, m);
    StepBraces(e, m, EOF_TOKEN, d);
    InitialShape();
    RunShape(e, INITIAL, tokens, m);
    EofEnds(e, m, d);
  }

  lemma InitialShape()
    ensures Shape(INITIAL)
  {}

  // ----- the two ways to be left open -----

  /** Between nodes, with nothing pending. */
  predicate Clear(c: Config) {
    c.phase.Between? && c.annotation.NoAnnotation? && !c.cont && !c.skipNode && !c.skipEntry && !c.typ.Valid()
  }

  predicate JustNamed(c: Config) {
    c.phase.Inside? && c.phase.st.AtNode? && c.annotation.NoAnnotation? && !c.cont && !c.skipNode && !c.skipEntry && !c.typ.Valid()
  }

  lemma NameStarts(e: Env, c: Config, t: Token)
    requires Clear(c) && t.id.BareIdentifier? && e.decode(t).Some?
    ensures var d := Step(e, c, t); d.Some? && JustNamed(d.value) && d.value.blocks == c.blocks && d.value.doc == c.doc
  {}

  lemma BraceOpens(e: Env, c: Config, t: Token)
    requires JustNamed(c) && t.id.BraceOpen?
    ensures var d := Step(e, c, t); d.Some? && Clear(d.value) && |d.value.blocks| == |c.blocks| + 1
  {}

  lemma EofEndsNode(e: Env, c: Config)
    requires JustNamed(c)
    ensures var d := Step(e, c, EOF_TOKEN); d.Some? && d.value.phase.Between? && |d.value.blocks| == |c.blocks|
  {}

  /** EOF inside a child block ends only the innermost node. */
  lemma EofInsideBlockIsAccepted(e: Env, outer: Token, open: Token, inner: Token)
    requires outer.id.BareIdentifier? && open.id.BraceOpen? && inner.id.BareIdentifier?
    requires e.decode(outer).Some? && e.decode(inner).Some?
    ensures var d := ParseAll(e, [outer, open, inner]); d.Some? && |d.value.blocks| == 1 && d.value.phase.Between?
  {
    hide Step, Clear, JustNamed;
    var tokens := [outer, open, inner];
    var all := tokens + [EOF_TOKEN];
    assert all[1..] == [open, inner, EOF_TOKEN] && all[1..][1..] == [inner, EOF_TOKEN] && all[1..][1..][1..] == [EOF_TOKEN];
    InitialIsClear();
    NameStarts(e, INITIAL, outer);
    var c1 := Step(e, INITIAL, outer).value;
    BraceOpens(e, c1, open);
    var c2 := Step(e, c1, open).value;
    NameStarts(e, c2, inner);
    var c3 := Step(e, c2, inner).value;
    EofEndsNode(e, c3);
    RunHead(e, INITIAL, all, c1);
    RunHead(e, c1, all[1..], c2);
    RunHead(e, c2, all[1..][1..], c3);
    RunOne(e, c3, EOF_TOKEN);
  }

  lemma SlashdashWaits(e: Env, c: Config, blank: Token, slash: Token, comment: Token)
    requires JustNamed(c) && blank.id.Whitespace? && slash.id.TokenComment? && comment.id.SingleLineComment?
    ensures var d := Run(e, c, [blank, slash, comment]);
      d.Some? && Dangling(d.value) && d.value.annotation.NoAnnotation? && d.value.blocks == c.blocks && d.value.doc == c.doc
  {
    var all := [blank, slash, comment];
    assert all[1..] == [slash, comment] && all[1..][1..] == [comment];
    var c1 := Goto(c, AtParams);
    var c2 := c1.(skipEntry := true);
    assert Step(e, c, blank) == Some(c1);
    assert Step(e, c1, slash) == Some(c2);
    assert Step(e, c2, comment) == Some(Goto(c2, AtEnd));
    hide Step;
    RunHead(e, c, all, c1);
    RunHead(e, c1, all[1..], c2);
    RunOne(e, c2, comment);
  }

  lemma DanglingAtEof(e: Env, c: Config)
    requires Dangling(c) && c.annotation.NoAnnotation?
    ensures Step(e, c, EOF_TOKEN) == Some(Goto(c, AtParams).(cont := false))
  {}

  /** A slashdash with nothing but a comment behind it is accepted as well, and leaves its node out of the document. */
  lemma DanglingSlashdashIsAccepted(e: Env, name: Token, blank: Token, slash: Token, comment: Token)
    requires name.id.BareIdentifier? && e.decode(name).Some?
    requires blank.id.Whitespace? && slash.id.TokenComment? && comment.id.SingleLineComment?
    ensures var d := ParseAll(e, [name, blank, slash, comment]);
      d.Some? && d.value.blocks == [] && d.value.phase.Inside? && d.value.doc == []
  {
    hide Step, Clear, JustNamed, Dangling;
    var tokens := [name, blank, slash, comment];
    var all := tokens + [EOF_TOKEN];
    var entry := [blank, slash, comment];
    assert all[1..] == entry + [EOF_TOKEN];
    InitialIsClear();
    NameStarts(e, INITIAL, name);
    var c1 := Step(e, INITIAL, name).value;
    RunHead(e, INITIAL, all, c1);
    SlashdashWaits(e, c1, blank, slash, comment);
    var c2 := Run(e, c1, entry).value;
    RunAppend(e, c1, entry, [EOF_TOKEN]);
    DanglingAtEof(e, c2);
    RunOne(e, c2, EOF_TOKEN);
    DanglingIsInside(c2);
  }

  lemma DanglingIsInside(c: Config)
    requires Dangling(c)
    ensures c.phase.Inside?
  {}

  lemma InitialIsClear()
    ensures Clear(INITIAL)
  {}
}
