// Formatting, without any assumption on the trees: the text reads back as the trees exactly when all that is in them can
// be spelled; and trees that come from a parser leave only their texts in doubt.
module Reformatting {
  import opened Basics
  import opened Tokens
  import opened Documents
  import opened Utf8
  import opened Generator
  import opened Machine
  import opened Printing
  import opened Exactness
  import opened RoundTrip
  import opened Completeness
  import opened Annotations
  import Kdl
  import Lexer
  import Lossless
  import Multiline
  import RawStrings
  import Refusal
  import Relexing
  import Strings

  // ----- what the scanner hands out can be read again -----

  ghost predicate LiteralReadsBack(id: TokenID, w: Bytes) {
    var p := Piece(id, w);
    IsNonStringValue(id) && !id.SuffixedDecimal? && !id.Null? && Scans(p, SP) && Scans(p, NL) && StartsWord(w)
  }

  /** A token whose bytes mean the same token again where the writer puts them. */
  ghost predicate Rereads(t: Token) {
    && (IsIdentifier(t.id) ==> TypeReadsBack(t.data))
    && (IsNonStringValue(t.id) && !t.id.Null? ==> LiteralReadsBack(t.id, t.data))
  }

  lemma StandingMoves(t: Bytes, i: nat, e: nat, u: Bytes, y: nat, stop: Byte)
    requires i <= e <= |t| && StandsAt(t[i..e], u, y) && y + (e - i) < |u| && u[y + (e - i)] == stop && stop in {SP, NL, RP}
    ensures Relexing.Moved(t, i, e, u, y)
  {
    var w := t[i..e];
    forall m | i <= m < e ensures u[y + (m - i)] == t[m] {
      assert u[y..y + |w|][m - i] == w[m - i];
    }
  }

  lemma ScannedScans(t: Bytes, i: nat, b: bool, id: TokenID, e: nat, stop: Byte)
    requires i <= |t| && Lexer.NextToken(t, i, b) == Lexer.Lexed(id, e, true) && IsValue(id)
    requires stop in {SP, NL} || (stop == RP && IsIdentifier(id))
    ensures Scans(Piece(id, t[i..e]), stop)
  {
    hide Lexer.NextToken, Relexing.Moved;
    var w := t[i..e];
    forall u: Bytes, y: nat, checked: bool | StandsAt(w, u, y) && y + |w| < |u| && u[y + |w|] == stop
      ensures Lexer.NextToken(u, y, checked) == Lexer.Lexed(id, y + |w|, true)
    {
      StandingMoves(t, i, e, u, y, stop);
      Relexing.ValueMoves(t, i, b, id, e, u, y, checked);
    }
  }

  lemma ScannedIsType(t: Bytes, i: nat, b: bool, id: TokenID, e: nat)
    requires i <= |t| && Lexer.NextToken(t, i, b) == Lexer.Lexed(id, e, true) && IsIdentifier(id)
    ensures TypeReadsBack(t[i..e])
  {
    hide Lexer.NextToken;
    var w := t[i..e];
    ScannedScans(t, i, b, id, e, RP);
    var u := w + [RP];
    assert u[0..|w|] == w && u[|w|] == RP;
    assert Lexer.NextToken(u, 0, true) == Lexer.Lexed(id, |w|, true);
  }

  lemma ScannedStartsWord(t: Bytes, i: nat, b: bool, id: TokenID, e: nat)
    requires i <= |t| && Lexer.NextToken(t, i, b) == Lexer.Lexed(id, e, true) && IsNonStringValue(id)
    ensures !id.SuffixedDecimal? && StartsWord(t[i..e])
  {
    hide Lexer.NextToken, Lexer.DecimalNumber, Lexer.HashToken, Lexer.ZeroToken, Lexer.QuotedText, DecodeAt, IsWhiteSpace;
    Relexing.ValueHasRune(t, i, b, id, e);
    var c := Lexer.PeekAt(t, i).c;
    if c == '#' as int {
      Relexing.HashStarts(t, i, b);
      HashIds(t, i);
    } else if c == '"' as int {
      QuotedIds(t, i, b);
    } else {
      Relexing.NumberCases(t, i, b, id, e);
      NumberIds(t, i, id, e);
    }
    AsciiWord(t, i, e);
  }

  /** Numbers and keywords start with one of these. */
  predicate IsLiteralStart(c: Rune) {
    IsDigit(c) || c == '#' as int || c == '+' as int || c == '-' as int
  }

  lemma HashIds(t: Bytes, i: nat)
    requires i < |t| && Lexer.At(t, i, '#' as int)
    ensures var r := Lexer.HashToken(t, i); r.Some? ==> !r.value.0.SuffixedDecimal?
  {
    hide Lexer.ReadWhile, Lexer.Raw, Lexer.MultiRaw, Lexer.Hashes;
  }

  lemma QuotedIds(t: Bytes, i: nat, b: bool)
    requires i < |t| && Lexer.At(t, i, '"' as int)
    ensures var r := Lexer.NextToken(t, i, b); r.Lexed? ==> IsString(r.id)
  {
    Lossless.AsciiAt(t, i, '"' as int);
    Refusal.QuoteStartsEntry(t, i);
    hide Lexer.NextToken, Lexer.QuotedEnd, Lexer.MultiQuotedEnd;
    assert Lexer.NextToken(t, i, b) == Lexer.Lift(Lexer.QuotedText(t, i));
  }

  lemma NumberIds(t: Bytes, i: nat, id: TokenID, e: nat)
    requires i < |t| && ((Lexer.At(t, i, '0' as int) && Lexer.ZeroToken(t, i) == Lexer.Lexed(id, e, true)) || (id.Decimal? && Relexing.DecimalStartsAt(t, i)))
    ensures !id.SuffixedDecimal? && Lexer.PeekAt(t, i).Rune? && IsLiteralStart(Lexer.PeekAt(t, i).c)
  {
    hide Lexer.NumericBase;
  }

  lemma AsciiWord(t: Bytes, i: nat, e: nat)
    requires i < e <= |t| && Lexer.PeekAt(t, i).Rune? && IsLiteralStart(Lexer.PeekAt(t, i).c)
    ensures StartsWord(t[i..e])
  {
    AsciiDecodes(t, i);
    assert t[i..e][0] == t[i];
    AsciiDecodes(t[i..e], 0);
  }

  lemma ScannedRereads(t: Bytes, i: nat, b: bool, id: TokenID, e: nat)
    requires i <= |t| && Lexer.NextToken(t, i, b) == Lexer.Lexed(id, e, true)
    ensures Rereads(Token(id, t[i..e], i))
  {
    hide Lexer.NextToken, TypeReadsBack, Scans, StartsWord;
    if IsIdentifier(id) { ScannedIsType(t, i, b, id, e); }
    if IsNonStringValue(id) && !id.Null? {
      ScannedScans(t, i, b, id, e, SP);
      ScannedScans(t, i, b, id, e, NL);
      ScannedStartsWord(t, i, b, id, e);
    }
  }

  // ----- what the parser builds from such tokens -----

  /** A value as a parser hands it out: its type and its literal are spelled readably, and the flag says what it is. */
  ghost predicate ValueSound(v: Value) {
    && TypeReadsBack(v.typ)
    && (v.content.Literal? ==> LiteralReadsBack(v.content.id, v.content.spelling))
    && (v.flag.FlagHexadecimal? <==> IsHexadecimal(v))
  }

  predicate IsHexadecimal(v: Value) { v.content.Literal? && v.content.id.Hexadecimal? }

  ghost predicate NodeSound(n: Node)
    decreases n
  {
    && TypeReadsBack(n.typ) && n.name.typ == [] && n.name.content.Text?
    && (forall k :: 0 <= k < |n.args| ==> ValueSound(n.args[k]))
    && (forall k :: 0 <= k < |n.props| ==> ValueSound(n.props[k].value))
    && DistinctKeys(n.props)
    && (forall k :: 0 <= k < |n.children| ==> NodeSound(n.children[k]))
  }

  ghost predicate AllSound(nodes: seq<Node>) { forall k :: 0 <= k < |nodes| ==> NodeSound(nodes[k]) }

  ghost predicate OwnersSound(blocks: seq<Block>) { forall k :: 0 <= k < |blocks| ==> NodeSound(blocks[k].owner.node) }

  /** All that has been read can be spelled, and all that is pending. */
  ghost predicate Sound(c: Config) {
    && AllSound(c.doc) && OwnersSound(c.blocks)
    && (c.phase.Inside? ==> NodeSound(c.phase.open.node))
    && Pending(c)
  }

  ghost predicate Pending(c: Config) {
    && (c.typ.Valid() ==> TypeReadsBack(c.typ.data))
    && (c.ident.Valid() ==> Rereads(c.ident))
  }

  lemma ReadValueSound(e: Env, t: Token, typ: Token)
    requires Reads(e) && Rereads(t) && (typ.Valid() ==> TypeReadsBack(typ.data)) && ValueOf(e.decode, t, typ).Some?
    ensures ValueSound(ValueOf(e.decode, t, typ).value)
  {
    hide TypeReadsBack, Scans, StartsWord, Strings.Unquoted, RawStrings.Parsed, Multiline.QuotedText, Multiline.RawText;
    NoTypeReadsBack();
  }

  lemma NoTypeReadsBack()
    ensures TypeReadsBack([])
  {}

  lemma SoundParts(n: Node)
    ensures NodeSound(n) <==>
      && TypeReadsBack(n.typ) && n.name.typ == [] && n.name.content.Text? && AllValuesSound(n.args) && AllPropsSound(n.props)
      && AllSound(n.children)
  {
    hide TypeReadsBack, ValueSound;
  }

  ghost predicate AllValuesSound(args: seq<Value>) { forall k :: 0 <= k < |args| ==> ValueSound(args[k]) }

  ghost predicate AllPropsSound(props: seq<Prop>) {
    (forall k :: 0 <= k < |props| ==> ValueSound(props[k].value)) && DistinctKeys(props)
  }

  lemma {:induction false} KeysOfPut(props: seq<Prop>, key: Bytes, v: Value)
    ensures forall k :: 0 <= k < |Put(props, key, v)| ==> Put(props, key, v)[k].key == key || HasKey(props, Put(props, key, v)[k].key)
    ensures forall k :: 0 <= k < |Put(props, key, v)| ==>
      Put(props, key, v)[k].value == v || exists j :: 0 <= j < |props| && Put(props, key, v)[k].value == props[j].value
  {
    if props != [] && props[0].key != key {
      KeysOfPut(props[1..], key, v);
      var r := Put(props[1..], key, v);
      forall k | 0 <= k < |Put(props, key, v)|
        ensures Put(props, key, v)[k].key == key || HasKey(props, Put(props, key, v)[k].key)
        ensures Put(props, key, v)[k].value == v || exists j :: 0 <= j < |props| && Put(props, key, v)[k].value == props[j].value
      {
        if k > 0 {
          if r[k - 1].key != key {
            var j :| 0 <= j < |props[1..]| && props[1..][j].key == r[k - 1].key;
            assert props[j + 1].key == r[k - 1].key;
          }
          if r[k - 1].value != v {
            var j :| 0 <= j < |props[1..]| && r[k - 1].value == props[1..][j].value;
            assert r[k - 1].value == props[j + 1].value;
          }
        }
      }
    } else if props != [] {
      assert forall k :: 1 <= k < |props| ==> Put(props, key, v)[k] == props[k];
    }
  }

  lemma {:induction false} PutSound(props: seq<Prop>, key: Bytes, v: Value)
    requires AllPropsSound(props) && ValueSound(v)
    ensures AllPropsSound(Put(props, key, v))
  {
    hide ValueSound;
    var r := Put(props, key, v);
    KeysOfPut(props, key, v);
    PutDistinct(props, key, v);
  }

  lemma {:induction false} PutDistinct(props: seq<Prop>, key: Bytes, v: Value)
    requires DistinctKeys(props)
    ensures DistinctKeys(Put(props, key, v))
  {
    if props != [] && props[0].key != key {
      PutDistinct(props[1..], key, v);
      KeysOfPut(props[1..], key, v);
      var r := Put(props[1..], key, v);
      forall k | 0 <= k < |r| ensures r[k].key != props[0].key {
        if r[k].key != key {
          var j :| 0 <= j < |props[1..]| && props[1..][j].key == r[k].key;
          assert props[j + 1].key == r[k].key;
        }
      }
    }
  }

  // ----- the building blocks -----

  lemma UnknownRereads(t: Token)
    requires !t.Valid()
    ensures Rereads(t)
  {}

  lemma CommitSound(e: Env, c: Config)
    requires Reads(e) && Sound(c) && c.phase.Inside?
    ensures Commit(e, c).Some? ==> Sound(Commit(e, c).value) && Commit(e, c).value.phase.Inside?
    ensures CommitPending(e, c).Some? ==> Sound(CommitPending(e, c).value) && CommitPending(e, c).value.phase.Inside?
  {
    hide Reads, NodeSound, TypeReadsBack, Rereads, ValueSound;
    if !c.skipEntry && ValueOf(e.decode, c.ident, c.typ).Some? {
      if !c.ident.Valid() { UnknownRereads(c.ident); }
      ReadValueSound(e, c.ident, c.typ);
      var v := ValueOf(e.decode, c.ident, c.typ).value;
      var n := c.phase.open.node;
      SoundParts(n);
      SoundParts(n.(args := n.args + [v]));
    }
  }

  lemma PropertySound(e: Env, c: Config, t: Token)
    requires Reads(e) && Sound(c) && c.phase.Inside? && Rereads(t)
    ensures AddProperty(e, c, t).Some? ==> Sound(AddProperty(e, c, t).value) && AddProperty(e, c, t).value.phase.Inside?
  {
    hide Reads, NodeSound, TypeReadsBack, Rereads, ValueSound, Put, AllPropsSound;
    if AddProperty(e, c, t).Some? {
      ReadValueSound(e, t, c.typ);
      var v := ValueOf(e.decode, t, c.typ).value;
      var n := c.phase.open.node;
      var key := KeyText(e.decode(c.ident).value);
      SoundParts(n);
      PutSound(n.props, key, v);
      SoundParts(n.(props := Put(n.props, key, v)));
    }
  }

  lemma StartSound(e: Env, c: Config, t: Token)
    requires Reads(e) && Sound(c) && IsIdentifier(t.id)
    ensures StartNode(e, c, t).Some? ==> Sound(StartNode(e, c, t).value)
  {
    hide Reads, NodeSound, TypeReadsBack, Rereads;
    if StartNode(e, c, t).Some? {
      var d := StartNode(e, c, t).value;
      NamesAreText(e, t);
      NoTypeReadsBack();
      SoundParts(d.phase.open.node);
    }
  }

  lemma NamesAreText(e: Env, t: Token)
    requires Reads(e) && IsIdentifier(t.id)
    ensures e.decode(t).Some? ==> e.decode(t).value.Text?
  {
    hide Strings.Unquoted, RawStrings.Parsed, Multiline.QuotedText, Multiline.RawText;
  }

  lemma RawSound(n: Node, raw: Option<RawSegment>)
    ensures NodeSound(n.(raw := raw)) <==> NodeSound(n)
  {
    hide NodeSound, TypeReadsBack, AllPropsSound, AllValuesSound, AllSound;
    SoundParts(n);
    SoundParts(n.(raw := raw));
  }

  lemma EndSound(e: Env, c: Config, end: nat)
    requires Sound(c) && c.phase.Inside?
    ensures Sound(EndNode(e, c, end))
  {
    hide NodeSound, TypeReadsBack, Rereads;
    var o := c.phase.open;
    var node := Close(e, o, end);
    if node != o.node { RawSound(o.node, node.raw); }
    if !o.ignored && c.blocks != [] {
      var n := c.blocks[|c.blocks| - 1].owner.node;
      SoundParts(n);
      SoundParts(n.(children := n.children + [node]));
    }
  }

  lemma OpenSound(c: Config, t: Token)
    requires Sound(c) && c.phase.Inside?
    ensures Sound(OpenBlock(c, t))
  {
    hide NodeSound, TypeReadsBack, Rereads;
  }

  lemma CloseSound(c: Config)
    requires Sound(c) && c.blocks != []
    ensures Sound(CloseBlock(c))
  {
    hide NodeSound, TypeReadsBack, Rereads;
  }

  lemma EndBothSound(e: Env, c: Config, t: Token)
    requires Sound(c) && c.phase.Inside?
    ensures EndNodeAndBlock(e, c, t).Some? ==> Sound(EndNodeAndBlock(e, c, t).value)
  {
    hide Sound, EndNode, CloseBlock;
    EndSound(e, c, t.offset);
    if EndNode(e, c, t.offset).blocks != [] { CloseSound(EndNode(e, c, t.offset)); }
  }

  // ----- the states -----

  lemma GotoSound(c: Config, st: NodeState)
    requires Sound(c) && c.phase.Inside?
    ensures Sound(Goto(c, st))
  {
    hide NodeSound, TypeReadsBack, Rereads;
  }

  lemma FlagsSound(c: Config, d: Config)
    requires Sound(c) && d.doc == c.doc && d.blocks == c.blocks && d.phase == c.phase && d.typ == c.typ && d.ident == c.ident
    ensures Sound(d)
  {
    hide NodeSound, TypeReadsBack, Rereads;
  }

  lemma IdentSound(c: Config, t: Token)
    requires Sound(c) && Rereads(t)
    ensures Sound(c.(ident := t))
  {
    hide NodeSound, TypeReadsBack, Rereads;
  }

  lemma TypeSound(c: Config, t: Token)
    requires Sound(c) && (t.Valid() ==> TypeReadsBack(t.data))
    ensures Sound(c.(typ := t))
  {
    hide NodeSound, TypeReadsBack, Rereads;
  }

  lemma LeaveSound(e: Env, c: Config, t: Token, d: Config)
    requires Reads(e) && Sound(c) && c.phase.Inside? && CommitAndLeave(e, c, t) == Some(d)
    ensures Sound(d)
  {
    hide Reads, Sound, CommitPending, EndNode, OpenBlock, EndNodeAndBlock;
    CommitSound(e, c);
    var m := CommitPending(e, c).value;
    EndSound(e, m, TokenEnd(e, t));
    OpenSound(m, t);
    EndBothSound(e, m, t);
  }

  lemma AnnotationSound(e: Env, c: Config, t: Token, d: Config)
    requires Sound(c) && Rereads(t) && InAnnotation(c, t) == Some(d)
    ensures Sound(d)
  {
    hide Sound, TypeReadsBack, LiteralReadsBack;
    if c.annotation.Wanted? && IsIdentifier(t.id) {
      TypeSound(c, t);
      FlagsSound(c.(typ := t), d);
    } else {
      FlagsSound(c, d);
    }
  }

  lemma BetweenSound(e: Env, c: Config, t: Token, d: Config)
    requires Reads(e) && Sound(c) && BetweenNodes(e, c, t) == Some(d)
    ensures Sound(d)
  {
    hide Reads, Sound, StartNode, CloseBlock;
    if IsIdentifier(t.id) {
      StartSound(e, c, t);
    } else if t.id.BraceClose? {
      CloseSound(c);
    } else {
      FlagsSound(c, d);
    }
  }

  lemma InNodeSound(e: Env, c: Config, t: Token, d: Config)
    requires Sound(c) && c.phase.Inside? && InNode(e, c, t) == Some(d)
    ensures Sound(d)
  {
    hide Sound, EndNode, OpenBlock, EndNodeAndBlock, Goto;
    GotoSound(c, AtParams);
    EndSound(e, c, TokenEnd(e, t));
    OpenSound(c, t);
    EndBothSound(e, c, t);
    FlagsSound(c, c.(cont := true));
  }

  lemma FirstSound(e: Env, c: Config, t: Token, d: Config)
    requires Reads(e) && Sound(c) && c.phase.Inside? && Rereads(t) && FirstEntry(e, c, t) == Some(d)
    ensures Sound(d)
  {
    hide Reads, Sound, Commit, Goto, Rereads, TypeReadsBack;
    IdentSound(c, t);
    NotTyped(c, t);
    CommitSound(e, c.(typ := NO_TOKEN, ident := t));
    GotoSound(c.(ident := t), AtArgProp);
  }

  lemma NotTyped(c: Config, t: Token)
    requires Sound(c) && Rereads(t)
    ensures Sound(c.(typ := NO_TOKEN, ident := t))
  {
    hide NodeSound, TypeReadsBack, Rereads;
  }

  lemma InParamsSound(e: Env, c: Config, t: Token, d: Config)
    requires Reads(e) && Sound(c) && c.phase.Inside? && Rereads(t) && InParams(e, c, t) == Some(d)
    ensures Sound(d)
  {
    hide Reads, Sound, FirstEntry, OpenBlock, EndNode, Goto, Rereads;
    GotoSound(c, AtEnd);
    OpenSound(c, t);
    EndSound(e, c, TokenEnd(e, t));
    FlagsSound(c, c.(skipEntry := true));
    FlagsSound(c, c.(cont := true));
    FlagsSound(c, c.(annotation := Wanted));
    if FirstEntry(e, c, t).Some? { FirstSound(e, c, t, FirstEntry(e, c, t).value); }
  }

  lemma InEndSound(e: Env, c: Config, t: Token, d: Config)
    requires Sound(c) && c.phase.Inside? && InEnd(e, c, t) == Some(d)
    ensures Sound(d)
  {
    hide Sound, EndNode, EndNodeAndBlock, Goto;
    GotoSound(c, AtParams);
    EndSound(e, c, TokenEnd(e, t));
    EndBothSound(e, c, t);
  }

  lemma InArgPropSound(e: Env, c: Config, t: Token, d: Config)
    requires Reads(e) && Sound(c) && c.phase.Inside? && Rereads(t) && InArgProp(e, c, t) == Some(d)
    ensures Sound(d)
  {
    hide Reads, Sound, Commit, CommitAndLeave, Goto, Rereads;
    CommitSound(e, c);
    if Commit(e, c).Some? { FlagsSound(Commit(e, c).value, Commit(e, c).value.(skipEntry := true)); }
    GotoSound(c, AtPropValue);
    GotoSound(c, AtPostWS);
    FlagsSound(c, c.(cont := true));
    GotoSound(c.(cont := true), AtPostWS);
    IdentSound(c, t);
    if CommitAndLeave(e, c, t).Some? { LeaveSound(e, c, t, CommitAndLeave(e, c, t).value); }
  }

  lemma NextSound(e: Env, c: Config, t: Token, d: Config)
    requires Reads(e) && Sound(c) && c.phase.Inside? && Rereads(t) && NextEntry(e, c, t) == Some(d)
    ensures Sound(d)
  {
    hide Reads, Sound, Commit, Rereads;
    CommitSound(e, c);
    var m := Commit(e, c).value;
    IdentSound(m, t);
    GotoSound(m, AtParams);
    GotoSound(m.(ident := t), AtArgProp);
    FlagsSound(Goto(m, AtParams), Goto(m, AtParams).(annotation := Wanted));
  }

  lemma CommentSound(e: Env, c: Config, t: Token, d: Config)
    requires Reads(e) && Sound(c) && c.phase.Inside? && BeforeComment(e, c, t) == Some(d)
    ensures Sound(d)
  {
    hide Reads, Sound, CommitPending;
    CommitSound(e, c);
    var m := CommitPending(e, c).value;
    FlagsSound(m, m.(skipEntry := true));
    GotoSound(m.(skipEntry := true), AtParams);
    GotoSound(m, AtEnd);
  }

  lemma InPostWSSound(e: Env, c: Config, t: Token, d: Config)
    requires Reads(e) && Sound(c) && c.phase.Inside? && Rereads(t) && InPostWS(e, c, t) == Some(d)
    ensures Sound(d)
  {
    hide Reads, Sound, CommitAndLeave, NextEntry, BeforeComment, Goto, Rereads;
    GotoSound(c, AtPropValue);
    FlagsSound(c, c.(cont := true));
    if NextEntry(e, c, t).Some? { NextSound(e, c, t, NextEntry(e, c, t).value); }
    if BeforeComment(e, c, t).Some? { CommentSound(e, c, t, BeforeComment(e, c, t).value); }
    if CommitAndLeave(e, c, t).Some? { LeaveSound(e, c, t, CommitAndLeave(e, c, t).value); }
  }

  lemma InPropValueSound(e: Env, c: Config, t: Token, d: Config)
    requires Reads(e) && Sound(c) && c.phase.Inside? && Rereads(t) && InPropValue(e, c, t) == Some(d)
    ensures Sound(d)
  {
    hide Reads, Sound, AddProperty, Rereads;
    FlagsSound(c, c.(cont := true));
    FlagsSound(c, c.(annotation := Wanted));
    if IsValue(t.id) {
      FlagsSound(c, c.(skipEntry := false));
      PropertySound(e, c, t);
      var m := if c.skipEntry then c.(skipEntry := false) else AddProperty(e, c, t).value;
      NothingPending(m);
      GotoSound(m.(typ := NO_TOKEN, ident := NO_TOKEN), AtNode);
    }
  }

  lemma NothingPending(c: Config)
    requires Sound(c)
    ensures Sound(c.(typ := NO_TOKEN, ident := NO_TOKEN))
  {
    hide NodeSound, TypeReadsBack, Rereads;
  }

  lemma HandleSound(e: Env, c: Config, t: Token, d: Config)
    requires Reads(e) && Sound(c) && Rereads(t) && Handle(e, c, t) == Some(d)
    ensures Sound(d)
  {
    hide Reads, Sound, Rereads, InAnnotation, BetweenNodes, InNode, InParams, InEnd, InArgProp, InPostWS, InPropValue;
    if !c.annotation.NoAnnotation? {
      AnnotationSound(e, c, t, d);
    } else {
      match c.phase
      case Between => BetweenSound(e, c, t, d);
      case Inside(_, AtNode, _) => InNodeSound(e, c, t, d);
      case Inside(_, AtParams, _) => InParamsSound(e, c, t, d);
      case Inside(_, AtEnd, _) => InEndSound(e, c, t, d);
      case Inside(_, AtArgProp, _) => InArgPropSound(e, c, t, d);
      case Inside(_, AtPostWS, _) => InPostWSSound(e, c, t, d);
      case Inside(_, AtPropValue, _) => InPropValueSound(e, c, t, d);
    }
  }

  /** Every token that can be read again leaves everything read so far spellable. */
  lemma StepSound(e: Env, c: Config, t: Token, d: Config)
    requires Reads(e) && Sound(c) && Rereads(t) && Step(e, c, t) == Some(d)
    ensures Sound(d)
  {
    hide Reads, Sound, Rereads, Handle;
    FlagsSound(c, c.(cont := false));
    if !(c.cont && t.id.Newline?) {
      HandleSound(e, if t.id.Whitespace? || IsComment(t.id) then c else c.(cont := false), t, d);
    }
  }

  ghost predicate AllReread(tokens: seq<Token>) { forall k :: 0 <= k < |tokens| ==> Rereads(tokens[k]) }

  lemma {:induction false} RunSound(e: Env, c: Config, tokens: seq<Token>, d: Config)
    requires Reads(e) && Sound(c) && AllReread(tokens) && Run(e, c, tokens) == Some(d)
    ensures Sound(d)
    decreases |tokens|
  {
    hide Step, Reads, Sound, Rereads;
    if tokens != [] {
      var m := Step(e, c, tokens[0]).value;
      StepSound(e, c, tokens[0], m);
      RunSound(e, m, tokens[1..], d);
    }
  }

  lemma {:induction false} ScanRereads(t: Bytes, i: nat, b: bool)
    requires i <= |t| && Lexer.ScanFrom(t, i, b).Scanned?
    ensures AllReread(Lexer.ScanFrom(t, i, b).tokens)
    decreases |t| - i
  {
    hide Lexer.NextToken, Rereads;
    var r := Lexer.NextToken(t, i, b);
    if r.Lexed? {
      ScanRereads(t, r.end, true);
      if r.whole { ScannedRereads(t, i, b, r.id, r.end); } else { CutRereads(t, i, b); }
    }
  }

  lemma CutRereads(t: Bytes, i: nat, b: bool)
    requires i <= |t|
    ensures var r := Lexer.NextToken(t, i, b); r.Lexed? && !r.whole ==> r.id.Whitespace? && Rereads(Token(r.id, [], i))
  {
    hide Lexer.SkipWhile, Lexer.DecimalNumber, Lexer.Identifier, Lexer.NumericBase, Lexer.Comment, Lexer.SkipUntil, DecodeAt,
      Lexer.HashToken;
  }

  // ----- the document that is shown -----

  lemma {:induction false} SpineSound(blocks: seq<Block>, inner: Option<Node>)
    requires OwnersSound(blocks) && (inner.Some? ==> NodeSound(inner.value))
    ensures Spine(blocks, inner).Some? ==> NodeSound(Spine(blocks, inner).value)
    decreases |blocks|
  {
    hide NodeSound;
    if blocks != [] {
      var k := |blocks| - 1;
      var o := blocks[k].owner;
      var node := if inner.Some? then o.node.(children := o.node.children + [inner.value]) else o.node;
      if inner.Some? {
        SoundParts(o.node);
        SoundParts(node);
      }
      SpineSound(blocks[..k], if o.ignored then None else Some(node));
    }
  }

  /** Whatever a parse shows can be spelled, but for its names, keys and texts. */
  lemma ParsedIsSound(source: Bytes)
    requires Kdl.Parsed(Reader(source).decode, source).Some?
    ensures AllSound(Visible(Kdl.Parsed(Reader(source).decode, source).value))
  {
    hide Lexer.ScanFrom, Run, NodeSound;
    var e := Reader(source);
    var tokens := Lexer.ScanFrom(source, 0, false).tokens;
    ScanRereads(source, 0, false);
    EofRereads();
    assert forall k :: 0 <= k < |tokens + [EOF_TOKEN]| ==> (tokens + [EOF_TOKEN])[k] == if k < |tokens| then tokens[k] else EOF_TOKEN;
    var d := ParseAll(e, tokens).value;
    InitialIsSound();
    assert Reads(e);
    RunSound(e, INITIAL, tokens + [EOF_TOKEN], d);
    SpineSound(d.blocks, if d.phase.Inside? && !d.phase.open.ignored then Some(d.phase.open.node) else None);
  }

  lemma EofRereads()
    ensures Rereads(EOF_TOKEN)
  {}

  lemma InitialIsSound()
    ensures Sound(INITIAL)
  {}

  // ----- exactness -----

  lemma WrittenSpelled(args: seq<Value>, props: seq<Prop>, args': seq<Value>, props': seq<Prop>)
    requires EraseValues(args) == EraseValues(args') && EraseProps(props) == EraseProps(props')
    requires AllValuesSound(args') && AllPropsSound(props')
    ensures forall k :: 0 <= k < |WrittenValues(args)| ==> ValueSpellable(WrittenValues(args)[k])
    ensures forall k :: 0 <= k < |WrittenProps(props)| ==> ValueSpellable(WrittenProps(props)[k].value)
    ensures DistinctKeys(WrittenProps(props))
  {
    hide TypeReadsBack, Scans, StartsWord;
    NoTypeReadsBack();
    assert |EraseValues(args)| == |args| == |args'| == |EraseValues(args')|;
    assert |EraseProps(props)| == |props| == |props'| == |EraseProps(props')|;
    forall k | 0 <= k < |args| ensures ValueSpellable(WrittenValues(args)[k]) {
      assert EraseValues(args)[k] == EraseValues(args')[k];
    }
    forall k | 0 <= k < |props| ensures props[k].key == props'[k].key && ValueSpellable(WrittenProps(props)[k].value) {
      assert EraseProps(props)[k] == EraseProps(props')[k];
    }
  }

  /** What is written of a tree that is read back as a sound one can be spelled. */
  lemma {:induction false} SoundWritten(n: Node, v: Node)
    requires Erase(n) == Erase(v) && NodeSound(v)
    ensures Spellable(Written(n))
    decreases n
  {
    hide TypeReadsBack, ValueSound, ValueSpellable, EraseValues, EraseProps, WrittenValues, WrittenProps;
    SoundParts(v);
    WrittenSpelled(n.args, n.props, v.args, v.props);
    WrittenCount(n.children);
    ErasedCount(n.children);
    ErasedCount(v.children);
    forall k | 0 <= k < |n.children| ensures Spellable(WrittenAll(n.children)[k]) {
      WrittenAt(n.children, k);
      ErasedAt(n.children, k);
      ErasedAt(v.children, k);
      SoundWritten(n.children[k], v.children[k]);
    }
  }

  lemma AllSoundWritten(nodes: seq<Node>, vs: seq<Node>)
    requires EraseAll(nodes) == EraseAll(vs) && AllSound(vs)
    ensures AllSpellable(WrittenAll(nodes))
  {
    hide NodeSound, Spellable, Erase, Written, EraseAll, WrittenAll;
    ErasedCount(nodes);
    ErasedCount(vs);
    WrittenCount(nodes);
    forall k | 0 <= k < |nodes| ensures Spellable(WrittenAll(nodes)[k]) {
      WrittenAt(nodes, k);
      ErasedAt(nodes, k);
      ErasedAt(vs, k);
      SoundWritten(nodes[k], vs[k]);
    }
  }

  ghost predicate AllSpellable(nodes: seq<Node>) { forall k :: 0 <= k < |nodes| ==> Spellable(nodes[k]) }

  lemma WrittenTexts(args: seq<Value>, props: seq<Prop>)
    ensures ArgsOk(WrittenValues(args)) <==> ArgsOk(args)
    ensures PropsOk(WrittenProps(props)) <==> PropsOk(props)
  {
    hide NameReadsBack, QuotedReadsBack;
    forall k | 0 <= k < |args| ensures ValueTextOk(WrittenValues(args)[k]) <==> ValueTextOk(args[k]) {}
    forall k | 0 <= k < |props| ensures PropOk(WrittenProps(props)[k]) <==> PropOk(props[k]) {}
    if ArgsOk(WrittenValues(args)) {
      forall k | 0 <= k < |args| ensures ValueTextOk(args[k]) { assert ValueTextOk(WrittenValues(args)[k]); }
    }
    if PropsOk(WrittenProps(props)) {
      forall k | 0 <= k < |props| ensures PropOk(props[k]) { assert PropOk(WrittenProps(props)[k]); }
    }
  }

  /** Annotations play no part in what texts can be read back. */
  lemma {:induction false} WrittenTextsOk(n: Node)
    ensures TextsOk(Written(n)) <==> TextsOk(n)
    decreases n
  {
    hide NameReadsBack, ArgsOk, PropsOk, WrittenValues, WrittenProps;
    WrittenTexts(n.args, n.props);
    AllWrittenTextsOk(n.children);
  }

  lemma {:induction false} AllWrittenTextsOk(nodes: seq<Node>)
    ensures AllTextsOk(WrittenAll(nodes)) <==> AllTextsOk(nodes)
    decreases nodes
  {
    hide TextsOk, Written;
    WrittenCount(nodes);
    forall k | 0 <= k < |nodes| ensures TextsOk(WrittenAll(nodes)[k]) <==> TextsOk(nodes[k]) {
      WrittenAt(nodes, k);
      WrittenTextsOk(nodes[k]);
    }
    if AllTextsOk(WrittenAll(nodes)) {
      forall k | 0 <= k < |nodes| ensures TextsOk(nodes[k]) { assert TextsOk(WrittenAll(nodes)[k]); }
    }
  }

  /** A tree that keeps its annotations is spelled like what is written of it. */
  lemma {:induction false} KeptSpellable(n: Node)
    requires Keeps(n) && Spellable(Written(n))
    ensures Spellable(n)
    decreases n
  {
    hide TypeReadsBack, Scans, StartsWord;
    WrittenCount(n.children);
    forall k | 0 <= k < |n.args| ensures ValueSpellable(n.args[k]) { assert ValueSpellable(WrittenValues(n.args)[k]); }
    forall k | 0 <= k < |n.props| ensures ValueSpellable(n.props[k].value) { assert ValueSpellable(WrittenProps(n.props)[k].value); }
    forall i, j | 0 <= i < j < |n.props| ensures n.props[i].key != n.props[j].key {
      assert WrittenProps(n.props)[i].key != WrittenProps(n.props)[j].key;
    }
    forall k | 0 <= k < |n.children| ensures Spellable(n.children[k]) {
      WrittenAt(n.children, k);
      assert Spellable(WrittenAll(n.children)[k]);
      KeptSpellable(n.children[k]);
    }
  }

  /** The text o writes for the nodes, and what a parser makes of it. */
  function Formatted(o: Options, nodes: seq<Node>): Bytes { DocumentOutput(o, Document(nodes, [])) }

  function Reread(text: Bytes): Option<Config> { Kdl.Parsed(Reader(text).decode, text) }

  /** A text that shows these trees. */
  predicate Shows(text: Bytes, nodes: seq<Node>) {
    var d := Reread(text);
    d.Some? && EraseAll(Visible(d.value)) == nodes
  }

  lemma WrittenText(o: Options, nodes: seq<Node>)
    requires o.spelling == SPELLED && !o.preserve
    ensures Formatted(o, WrittenAll(nodes)) == Formatted(o, nodes)
  {
    hide WrittenAll, DocumentOutput;
    WrittenAllKeep(nodes);
    WrittenDecidesText(o, WrittenAll(nodes), nodes);
  }

  /** A text that shows the trees it was formatted from shows what is written of them, and all their texts can be read back. */
  lemma ShownIsWritten(o: Options, nodes: seq<Node>)
    requires o.spelling == SPELLED && !o.preserve && Multiline.BlankFrom(o.indent, 0)
    requires Shows(Formatted(o, nodes), EraseAll(nodes))
    ensures AllSpellable(WrittenAll(nodes)) && AllTextsOk(nodes) && EraseAll(nodes) == WrittenAll(nodes)
  {
    hide NodeSound, Spellable, TextsOk, ParseAll, Visible, EraseAll, DocumentOutput, Multiline.BlankFrom, WrittenAll, Kdl.Parsed;
    var text := Formatted(o, nodes);
    ParsedIsSound(text);
    AllSoundWritten(nodes, Visible(Reread(text).value));
    WrittenText(o, nodes);
    ReadsBackOrIsRefused(o, WrittenAll(nodes));
    AllWrittenTextsOk(nodes);
    WrittenAllKeep(nodes);
  }

  /**
   * Main result: for all trees, without exception, the text that the formatting writer prints is accepted and shows the same
   * trees again, at every depth, exactly when every tree is printable; which asks, among other things, that no annotation is
   * lost.
   */
  lemma ReadsBackExactly(o: Options, nodes: seq<Node>)
    requires o.spelling == SPELLED && !o.preserve && Multiline.BlankFrom(o.indent, 0)
    ensures Shows(Formatted(o, nodes), EraseAll(nodes)) <==> forall k :: 0 <= k < |nodes| ==> Printable(nodes[k])
  {
    hide Step, Render, Spellable, Printable, TextsOk, Lexer.ScanFrom, ParseAll, Visible, EraseAll, DocumentOutput, Multiline.BlankFrom,
      WrittenAll, Keeps;
    if forall k :: 0 <= k < |nodes| ==> Printable(nodes[k]) {
      PrintedTextReadsBack(o, nodes);
    }
    if Shows(Formatted(o, nodes), EraseAll(nodes)) {
      ShownIsWritten(o, nodes);
      KeepsAllExactly(nodes);
      forall k | 0 <= k < |nodes| ensures Printable(nodes[k]) {
        WrittenAt(nodes, k);
        KeptSpellable(nodes[k]);
        PrintableIsBoth(nodes[k]);
      }
    }
  }

  /** Main result: it shows what is written of the trees, annotations lost or not, exactly when that can be printed. */
  lemma ReadsAsWrittenExactly(o: Options, nodes: seq<Node>)
    requires o.spelling == SPELLED && !o.preserve && Multiline.BlankFrom(o.indent, 0)
    ensures Shows(Formatted(o, nodes), WrittenAll(nodes)) <==> forall k :: 0 <= k < |nodes| ==> Printable(Written(nodes[k]))
  {
    hide Printable, Written, WrittenAll, EraseAll, Shows, Multiline.BlankFrom, Formatted;
    WrittenText(o, nodes);
    WrittenAllKeep(nodes);
    ReadsBackExactly(o, WrittenAll(nodes));
    WrittenCount(nodes);
    forall k | 0 <= k < |nodes| ensures WrittenAll(nodes)[k] == Written(nodes[k]) { WrittenAt(nodes, k); }
    if forall k :: 0 <= k < |nodes| ==> Printable(WrittenAll(nodes)[k]) {
      forall k | 0 <= k < |nodes| ensures Printable(Written(nodes[k])) { assert Printable(WrittenAll(nodes)[k]); }
    }
  }

  /**
   * Main result: whatever a parser has read, whether or not it closed all its blocks, can be formatted: the formatted text is
   * refused if a name, key or text does not read back from its own spelling; and otherwise it is read as the same trees
   * without the annotations of hexadecimal values, and so as the same trees exactly when there are none.
   */
  lemma ParsedTreesReadBackOrAreRefused(source: Bytes, o: Options)
    requires o.spelling == SPELLED && !o.preserve && Multiline.BlankFrom(o.indent, 0)
    requires Kdl.Parsed(Reader(source).decode, source).Some?
    ensures var nodes := Visible(Kdl.Parsed(Reader(source).decode, source).value);
      var d := Reread(Formatted(o, nodes));
      && (d.Some? <==> AllTextsOk(nodes))
      && (d.Some? ==> Complete(d.value) && EraseAll(Visible(d.value)) == WrittenAll(nodes))
      && (d.Some? && EraseAll(Visible(d.value)) == EraseAll(nodes) <==> AllTextsOk(nodes) && forall k :: 0 <= k < |nodes| ==> Keeps(nodes[k]))
  {
    hide Step, Render, Spellable, NodeSound, Keeps, TextsOk, Lexer.ScanFrom, ParseAll, Visible, EraseAll, WrittenAll, DocumentOutput,
      Multiline.BlankFrom, AllTextsOk;
    var nodes := Visible(Kdl.Parsed(Reader(source).decode, source).value);
    ParsedIsSound(source);
    AllSoundWritten(nodes, nodes);
    WrittenText(o, nodes);
    ReadsBackOrIsRefused(o, WrittenAll(nodes));
    AllWrittenTextsOk(nodes);
    WrittenAllKeep(nodes);
    KeepsAllExactly(nodes);
    if AllTextsOk(nodes) { RereadCompletes(o, WrittenAll(nodes)); }
  }

  lemma RereadCompletes(o: Options, nodes: seq<Node>)
    requires o.spelling == SPELLED && !o.preserve && Multiline.BlankFrom(o.indent, 0) && AllSpellable(nodes) && AllTextsOk(nodes)
    ensures var d := Reread(Formatted(o, nodes)); d.Some? && Complete(d.value)
  {
    hide Step, Render, Spellable, Printable, TextsOk, Lexer.ScanFrom, ParseAll, Visible, EraseAll, DocumentOutput, Multiline.BlankFrom;
    forall k | 0 <= k < |nodes| ensures Printable(nodes[k]) { PrintableIsBoth(nodes[k]); }
    PrintedTextReadsBack(o, nodes);
  }

  // ----- formatting twice -----

  /** No hexadecimal number of the tree, at any depth, has an annotation. */
  predicate HexadecimalsPlain(n: Node)
    decreases n
  {
    && (forall k :: 0 <= k < |n.args| ==> IsHexadecimal(n.args[k]) ==> n.args[k].typ == [])
    && (forall k :: 0 <= k < |n.props| ==> IsHexadecimal(n.props[k].value) ==> n.props[k].value.typ == [])
    && (forall k :: 0 <= k < |n.children| ==> HexadecimalsPlain(n.children[k]))
  }

  /** Of what a parser hands out, exactly the hexadecimal numbers lose their annotations. */
  lemma {:induction false} SoundKeeps(n: Node, v: Node)
    requires NodeSound(v) && Erase(n) == Erase(v)
    ensures Keeps(v) <==> HexadecimalsPlain(n)
    decreases n
  {
    hide TypeReadsBack, LiteralReadsBack;
    SoundEntriesKeep(n.args, n.props, v.args, v.props);
    ErasedCount(n.children);
    ErasedCount(v.children);
    forall k | 0 <= k < |n.children| ensures Keeps(v.children[k]) <==> HexadecimalsPlain(n.children[k]) {
      ErasedAt(n.children, k);
      ErasedAt(v.children, k);
      SoundKeeps(n.children[k], v.children[k]);
    }
  }

  lemma SoundEntriesKeep(args: seq<Value>, props: seq<Prop>, args': seq<Value>, props': seq<Prop>)
    requires EraseValues(args) == EraseValues(args') && EraseProps(props) == EraseProps(props')
    requires AllValuesSound(args') && AllPropsSound(props')
    ensures |args| == |args'| && |props| == |props'|
    ensures forall k :: 0 <= k < |args| ==> (KeepsType(args'[k]) <==> (IsHexadecimal(args[k]) ==> args[k].typ == []))
    ensures forall k :: 0 <= k < |props| ==> (KeepsType(props'[k].value) <==> (IsHexadecimal(props[k].value) ==> props[k].value.typ == []))
  {
    hide TypeReadsBack, LiteralReadsBack;
    assert |EraseValues(args)| == |args| == |args'| == |EraseValues(args')|;
    assert |EraseProps(props)| == |props| == |props'| == |EraseProps(props')|;
    forall k | 0 <= k < |args| ensures KeepsType(args'[k]) <==> (IsHexadecimal(args[k]) ==> args[k].typ == []) {
      assert EraseValues(args)[k] == EraseValues(args')[k];
    }
    forall k | 0 <= k < |props| ensures KeepsType(props'[k].value) <==> (IsHexadecimal(props[k].value) ==> props[k].value.typ == []) {
      assert EraseProps(props)[k] == EraseProps(props')[k];
    }
  }

  /** Formatting what was formatted gives the same text again exactly when no hexadecimal number has an annotation. */
  lemma FormattingTwice(o: Options, nodes: seq<Node>)
    requires o.spelling == SPELLED && !o.preserve && Multiline.BlankFrom(o.indent, 0)
    requires forall k :: 0 <= k < |nodes| ==> Printable(nodes[k])
    ensures var text := Formatted(o, nodes); var d := Reread(text);
      d.Some? && (Formatted(o, Visible(d.value)) == text <==> forall k :: 0 <= k < |nodes| ==> HexadecimalsPlain(nodes[k]))
  {
    hide Printable, Visible, EraseAll, Multiline.BlankFrom, Formatted, WrittenAll, Reread, HexadecimalsPlain, Keeps, NodeSound;
    var text := Formatted(o, nodes);
    ReadsBackExactly(o, nodes);
    var again := Visible(Reread(text).value);
    RereadIsSound(text);
    AllKeepExactly(nodes, again);
    KeepsAllExactly(again);
    KeptAsWritten(o, nodes, again);
    if Formatted(o, again) == text { SameTextKeeps(o, again, text); }
  }

  lemma RereadIsSound(text: Bytes)
    requires Reread(text).Some?
    ensures AllSound(Visible(Reread(text).value))
  {
    hide NodeSound, Visible, Kdl.Parsed;
    ParsedIsSound(text);
  }

  lemma AllKeepExactly(nodes: seq<Node>, vs: seq<Node>)
    requires AllSound(vs) && EraseAll(nodes) == EraseAll(vs)
    ensures (forall k :: 0 <= k < |vs| ==> Keeps(vs[k])) <==> (forall k :: 0 <= k < |nodes| ==> HexadecimalsPlain(nodes[k]))
  {
    hide NodeSound, Keeps, HexadecimalsPlain, Erase, EraseAll;
    ErasedCount(nodes);
    ErasedCount(vs);
    forall k | 0 <= k < |nodes| ensures Keeps(vs[k]) <==> HexadecimalsPlain(nodes[k]) {
      ErasedAt(nodes, k);
      ErasedAt(vs, k);
      SoundKeeps(nodes[k], vs[k]);
    }
  }

  /** If what was read again keeps its annotations, as what was printed does, both have the same text. */
  lemma KeptAsWritten(o: Options, nodes: seq<Node>, again: seq<Node>)
    requires o.spelling == SPELLED && !o.preserve && EraseAll(nodes) == EraseAll(again)
    requires forall k :: 0 <= k < |nodes| ==> Printable(nodes[k])
    ensures (forall k :: 0 <= k < |again| ==> Keeps(again[k])) ==> Formatted(o, again) == Formatted(o, nodes)
  {
    hide Printable, EraseAll, WrittenAll, Keeps, DocumentOutput;
    forall k | 0 <= k < |nodes| ensures Keeps(nodes[k]) { PrintableKeeps(nodes[k]); }
    KeepsAllExactly(nodes);
    KeepsAllExactly(again);
    if forall k :: 0 <= k < |again| ==> Keeps(again[k]) { WrittenDecidesText(o, again, nodes); }
  }

  lemma {:induction false} PrintableKeeps(n: Node)
    requires Printable(n)
    ensures Keeps(n)
    decreases n
  {
    hide TypeReadsBack, NameReadsBack, Scans, StartsWord, QuotedReadsBack;
    forall k | 0 <= k < |n.children| ensures Keeps(n.children[k]) { PrintableKeeps(n.children[k]); }
  }

  /** Trees that are shown by the text they are formatted to keep their annotations. */
  lemma SameTextKeeps(o: Options, again: seq<Node>, text: Bytes)
    requires o.spelling == SPELLED && !o.preserve && Multiline.BlankFrom(o.indent, 0)
    requires Formatted(o, again) == text && Shows(text, EraseAll(again))
    ensures forall k :: 0 <= k < |again| ==> Keeps(again[k])
  {
    hide EraseAll, Shows, Formatted, Multiline.BlankFrom, Keeps, Printable;
    ReadsBackExactly(o, again);
    forall k | 0 <= k < |again| ensures Keeps(again[k]) { PrintableKeeps(again[k]); }
  }

  // ----- conditions that can be computed -----

  /** A type name is one when the scanner reads it whole in front of a parenthesis. */
  lemma TypeReadsBackExactly(typ: Bytes)
    ensures TypeReadsBack(typ) <==>
      (typ != [] ==> var r := Lexer.NextToken(typ + [RP], 0, true); r.Lexed? && r.whole && r.end == |typ| && IsIdentifier(r.id))
  {
    hide Lexer.NextToken;
    var t := typ + [RP];
    var r := Lexer.NextToken(t, 0, true);
    assert t[0..|typ|] == typ && t[|typ|] == RP;
    if typ != [] {
      if r.Lexed? && r.whole && r.end == |typ| && IsIdentifier(r.id) { ScannedIsType(t, 0, true, r.id, |typ|); }
      if TypeReadsBack(typ) {
        assert Lexer.NextToken(t, 0, true) == Lexer.Lexed(TypePiece(typ).id, |typ|, true);
      }
    }
  }

  /** And a literal is one when the scanner reads it whole, as the same kind of literal, in front of a space. */
  lemma LiteralReadsBackExactly(id: TokenID, w: Bytes)
    requires IsNonStringValue(id) && !id.SuffixedDecimal? && !id.Null?
    ensures LiteralReadsBack(id, w) <==> Lexer.NextToken(w + [SP], 0, true) == Lexer.Lexed(id, |w|, true)
  {
    hide Lexer.NextToken, StartsWord;
    var t := w + [SP];
    assert t[0..|w|] == w && t[|w|] == SP && StandsAt(w, t, 0);
    if Lexer.NextToken(t, 0, true) == Lexer.Lexed(id, |w|, true) {
      ScannedScans(t, 0, true, id, |w|, SP);
      ScannedScans(t, 0, true, id, |w|, NL);
      ScannedStartsWord(t, 0, true, id, |w|);
    }
  }
}
