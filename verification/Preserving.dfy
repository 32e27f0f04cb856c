// Parsing and then generating with PreserveFormatting writes the source back.
module Preserving {
  import opened Basics
  import opened Tokens
  import opened Documents
  import opened Machine
  import opened Effects
  import opened Completeness
  import opened Segments
  import opened Generator

  /** The document a finished parse hands out. */
  function ParsedDocument(e: Env, d: Config): Document {
    Document(Visible(d), if d.lastEnd < |e.source| then e.source[d.lastEnd..] else [])
  }

  ghost predicate AnyIgnored(segs: seq<Segment>) {
    exists i :: 0 <= i < |segs| && segs[i].ignored
  }

  lemma {:induction false} NestedClean(source: Bytes, n: Node)
    requires NestedNode(source, n)
    ensures !HasAnyDirtyDescendant(n)
    decreases n, 0
  {
    NestedAllClean(source, n.children, n.raw.value.lo + 1, n.raw.value.hi - 1);
  }

  lemma {:induction false} NestedAllClean(source: Bytes, nodes: seq<Node>, lo: int, hi: int)
    requires Nested(source, nodes, lo, hi)
    ensures forall i :: 0 <= i < |nodes| ==> NestedNode(source, nodes[i]) && !HasAnyDirtyDescendant(nodes[i])
    decreases nodes
  {
    if nodes != [] {
      var n := nodes[|nodes| - 1];
      NestedAllClean(source, nodes[..|nodes| - 1], lo, n.raw.value.lo);
      NestedClean(source, n);
      forall i | 0 <= i < |nodes|
        ensures NestedNode(source, nodes[i]) && !HasAnyDirtyDescendant(nodes[i])
      {
        if i < |nodes| - 1 {
          assert nodes[i] == nodes[..|nodes| - 1][i];
        }
      }
    }
  }

  lemma AnyIgnoredSnoc(segs: seq<Segment>)
    requires segs != []
    ensures AnyIgnored(segs) <==> AnyIgnored(segs[..|segs| - 1]) || segs[|segs| - 1].ignored
  {
    var front := segs[..|segs| - 1];
    if AnyIgnored(front) {
      var i :| 0 <= i < |front| && front[i].ignored;
      assert segs[i].ignored;
    }
    if AnyIgnored(segs) && !segs[|segs| - 1].ignored {
      var i :| 0 <= i < |segs| && segs[i].ignored;
      assert front[i].ignored;
    }
  }

  lemma Halves(source: Bytes, a: nat, b: nat, c: nat)
    requires a <= b <= c <= |source|
    ensures source[a..b] + source[b..c] == source[a..c]
  {}

  /** The verbatim output of one level: all of its source if nothing in it is slashdashed, and less otherwise. */
  lemma {:induction false} LevelOutput(source: Bytes, nodes: seq<Node>, segs: seq<Segment>, from: nat, to: nat, lo: int, hi: int, o: Options)
    requires Chain(segs, from, to) && to <= |source|
    requires Carries(source, nodes, segs) && |nodes| == Kept(segs) && Nested(source, nodes, lo, hi)
    requires o.preserve
    ensures from <= to
    ensures !AnyIgnored(segs) ==> NodesOutput(o, nodes) == source[from..to]
    ensures AnyIgnored(segs) ==> |NodesOutput(o, nodes)| < to - from
    decreases |segs|
  {
    if segs != [] {
      hide NodeOutput, AnyIgnored;
      var k := |segs| - 1;
      var s := segs[k];
      AnyIgnoredSnoc(segs);
      if s.ignored {
        LevelOutput(source, nodes, segs[..k], from, s.lo, lo, hi, o);
      } else {
        var n := nodes[|nodes| - 1];
        LevelOutput(source, nodes[..|nodes| - 1], segs[..k], from, s.lo, lo, n.raw.value.lo, o);
        CleanOutput(source, n, o);
        Halves(source, from, s.lo, to);
      }
    } else {
      assert !AnyIgnored(segs);
    }
  }

  lemma CleanOutput(source: Bytes, n: Node, o: Options)
    requires NestedNode(source, n) && o.preserve
    ensures NodeOutput(o, n) == source[n.raw.value.lo..n.raw.value.hi]
  {
    NestedClean(source, n);
  }

  /** Main result: for every token list that tiles the source (up to a tail the scanner may leave) and closes what it
      opens, the generator reproduces the source byte for byte exactly when no top-level node was slashdashed. */
  lemma FormatPreservingIdentity(e: Env, tokens: seq<Token>, q: nat, d: Config, o: Options)
    requires q <= |e.source| && Tiles(e.source, tokens, 0, q)
    requires ParseAll(e, tokens) == Some(d) && ClosesAll(e, tokens) && o.preserve
    ensures Complete(d) && (DocumentOutput(o, ParsedDocument(e, d)) == e.source <==> !AnyIgnored(d.segments))
    ensures forall i :: 0 <= i < |d.doc| ==> NestedNode(e.source, d.doc[i]) && !HasAnyDirtyDescendant(d.doc[i])
  {
    hide NodeOutput, NodesOutput, Nested, NestedNode, Carries, Chain, Run, AnyIgnored, ClosesAll;
    CompleteExactly(e, tokens, d);
    ParseTiled(e, tokens, d, q);
    LevelOutput(e.source, d.doc, d.segments, 0, d.lastEnd, 0, d.lastEnd, o);
    NestedAllClean(e.source, d.doc, 0, d.lastEnd);
    var tail := e.source[d.lastEnd..];
    assert ParsedDocument(e, d).nodes == d.doc && ParsedDocument(e, d).trailing == tail;
    assert e.source[0..d.lastEnd] + tail == e.source;
  }

  // ----- the condition in terms of the tokens -----

  /** A slashdash is read where a top-level node is expected. */
  ghost predicate SlashdashedAtTop(c: Config, t: Token) {
    c.blocks == [] && c.phase.Between? && t.id.TokenComment?
  }

  ghost predicate AnySlashdashAtTop(e: Env, c: Config, tokens: seq<Token>)
    decreases |tokens|
  {
    && tokens != []
    && (SlashdashedAtTop(c, tokens[0]) || (Step(e, c, tokens[0]).Some? && AnySlashdashAtTop(e, Step(e, c, tokens[0]).value, tokens[1..])))
  }

  /** A slashdash at the top level is pending, or its node is open or finished. */
  ghost predicate Tainted(c: Config) {
    || AnyIgnored(TopSegments(c))
    || (if c.blocks != [] then c.blocks[0].owner.ignored
        else if c.phase.Inside? then c.phase.open.ignored
        else c.skipNode)
  }

  lemma TopSegmentsSnoc(c: Config, s: Segment)
    requires c.blocks == []
    ensures AnyIgnored(c.segments + [s]) <==> AnyIgnored(c.segments) || s.ignored
  {
    AnyIgnoredSnoc(c.segments + [s]);
    assert (c.segments + [s])[..|c.segments + [s]| - 1] == c.segments;
  }

  /** Closing the node o, open in c, moves its slashdash into the segments. */
  lemma EndTaint(e: Env, c: Config, end: nat)
    requires c.phase.Inside? && !c.skipNode
    ensures Tainted(EndNode(e, c, end)) <==> Tainted(c)
  {
    if c.blocks == [] {
      TopSegmentsSnoc(c, Segment(c.phase.open.start, end, c.phase.open.ignored));
    } else {
      var d := EndNode(e, c, end);
      assert d.blocks[0].owner.ignored == c.blocks[0].owner.ignored && d.blocks[0].outer == c.blocks[0].outer;
    }
  }

  lemma CloseTaint(c: Config)
    requires c.phase.Between? && c.blocks != []
    ensures Tainted(CloseBlock(c)) <==> Tainted(c)
  {}

  /** Only a slashdash read at the top level taints, and nothing removes the taint. */
  lemma StepTaint(e: Env, c: Config, t: Token, d: Config)
    requires Step(e, c, t) == Some(d) && (c.skipNode ==> c.phase.Between?)
    ensures Tainted(d) <==> Tainted(c) || SlashdashedAtTop(c, t)
    ensures d.skipNode ==> d.phase.Between?
  {
    hide Step, EndNode, CloseBlock;
    var mid, eff := StepEffect(e, c, t, d);
    assert SkeletonOf(c.phase) == SkeletonOf(mid.phase);
    match eff
    case Local =>
    case Started =>
    case Ended =>
      EndTaint(e, mid, TokenEnd(e, t));
      EndFlagsKept(e, mid, TokenEnd(e, t));
    case Opened =>
    case Closed =>
      CloseTaint(mid);
      CloseFlagsKept(mid);
    case EndedAndClosed =>
      EndTaint(e, mid, t.offset);
      EndFlagsKept(e, mid, t.offset);
      CloseTaint(EndNode(e, mid, t.offset));
      CloseFlagsKept(EndNode(e, mid, t.offset));
  }

  lemma EndFlagsKept(e: Env, c: Config, end: nat)
    requires c.phase.Inside?
    ensures var d := EndNode(e, c, end); d.skipNode == c.skipNode && d.phase.Between? && |d.blocks| == |c.blocks|
  {}

  lemma CloseFlagsKept(c: Config)
    requires c.blocks != []
    ensures CloseBlock(c).skipNode == c.skipNode && CloseBlock(c).phase.Inside?
  {}

  lemma {:induction false} RunTaint(e: Env, c: Config, tokens: seq<Token>, d: Config)
    requires Run(e, c, tokens) == Some(d) && (c.skipNode ==> c.phase.Between?)
    ensures Tainted(d) <==> Tainted(c) || AnySlashdashAtTop(e, c, tokens)
    decreases |tokens|
  {
    hide Step;
    if tokens != [] {
      var m := Step(e, c, tokens[0]).value;
      StepTaint(e, c, tokens[0], m);
      RunTaint(e, m, tokens[1..], d);
    }
  }

  /** EOF refuses a pending slashdash. */
  lemma NoPendingAtEnd(e: Env, tokens: seq<Token>, d: Config)
    requires ParseAll(e, tokens) == Some(d) && Complete(d)
    ensures !d.skipNode
  {
    hide Step;
    RunAppend(e, INITIAL, tokens, [EOF_TOKEN]);
    var m := Run(e, INITIAL, tokens).value;
    assert [EOF_TOKEN][1..] == [];
    RunTaint(e, INITIAL, tokens, m);
    assert Step(e, m, EOF_TOKEN) == Some(d);
    RunSkip(e, INITIAL, tokens, m);
    EofSkip(e, m, d);
  }

  lemma {:induction false} RunSkip(e: Env, c: Config, tokens: seq<Token>, d: Config)
    requires Run(e, c, tokens) == Some(d) && (c.skipNode ==> c.phase.Between?)
    ensures d.skipNode ==> d.phase.Between?
    decreases |tokens|
  {
    hide Step;
    if tokens != [] {
      var m := Step(e, c, tokens[0]).value;
      StepTaint(e, c, tokens[0], m);
      RunSkip(e, m, tokens[1..], d);
    }
  }

  lemma EofSkip(e: Env, c: Config, d: Config)
    requires Step(e, c, EOF_TOKEN) == Some(d) && Complete(d) && (c.skipNode ==> c.phase.Between?)
    ensures !d.skipNode
  {
    if c.phase.Inside? {
      hide Step;
      var mid, eff := StepEffect(e, c, EOF_TOKEN, d);
      assert SkeletonOf(c.phase) == SkeletonOf(mid.phase);
    }
  }

  /** No slashdash at the top level was read exactly when no finished top-level node is slashdashed. */
  lemma IgnoredIsSlashdashed(e: Env, tokens: seq<Token>, d: Config)
    requires ParseAll(e, tokens) == Some(d) && ClosesAll(e, tokens)
    ensures AnyIgnored(d.segments) <==> AnySlashdashAtTop(e, INITIAL, tokens + [EOF_TOKEN])
  {
    hide ClosesAll, Step, AnyIgnored;
    CompleteExactly(e, tokens, d);
    NothingTainted();
    RunTaint(e, INITIAL, tokens + [EOF_TOKEN], d);
    NoPendingAtEnd(e, tokens, d);
  }

  lemma NothingTainted()
    ensures !Tainted(INITIAL)
  {}

  /** Main result: the source survives exactly when no slashdash stands before a top-level node. */
  lemma PreservedIffNothingSlashdashed(e: Env, tokens: seq<Token>, q: nat, d: Config, o: Options)
    requires q <= |e.source| && Tiles(e.source, tokens, 0, q)
    requires ParseAll(e, tokens) == Some(d) && ClosesAll(e, tokens) && o.preserve
    ensures DocumentOutput(o, ParsedDocument(e, d)) == e.source <==> !AnySlashdashAtTop(e, INITIAL, tokens + [EOF_TOKEN])
  {
    hide *;
    FormatPreservingIdentity(e, tokens, q, d, o);
    IgnoredIsSlashdashed(e, tokens, d);
  }
}
