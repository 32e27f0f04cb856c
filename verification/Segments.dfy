// The byte segments computed during a parse: they tile the source level by level and nest strictly.
module Segments {
  import opened Basics
  import opened Tokens
  import opened Documents
  import opened Machine
  import opened Effects

  /** Non-empty adjacent segments from one offset to another. */
  predicate Chain(segs: seq<Segment>, from: nat, to: nat)
    decreases |segs|
  {
    if segs == [] then from == to
    else
      var s := segs[|segs| - 1];
      s.lo < s.hi == to && Chain(segs[..|segs| - 1], from, s.lo)
  }

  /** The last nodes of the list carry exactly the segments that are not slashdashed, in order. */
  predicate Carries(source: Bytes, nodes: seq<Node>, segs: seq<Segment>)
    decreases |segs|
  {
    if segs == [] then true
    else
      var s := segs[|segs| - 1];
      if s.ignored then Carries(source, nodes, segs[..|segs| - 1])
      else
        && nodes != []
        && nodes[|nodes| - 1].raw == Some(RawSegment(source, s.lo, s.hi))
        && Carries(source, nodes[..|nodes| - 1], segs[..|segs| - 1])
  }

  /** How many segments are not slashdashed. */
  function Kept(segs: seq<Segment>): nat {
    if segs == [] then 0
    else Kept(segs[..|segs| - 1]) + (if segs[|segs| - 1].ignored then 0 else 1)
  }

  /** The nodes have raw segments, in order and without overlap, between lo and hi, and so, strictly inside
      each of them, have their children. */
  predicate Nested(source: Bytes, nodes: seq<Node>, lo: int, hi: int)
    decreases nodes
  {
    if nodes == [] then true
    else
      var n := nodes[|nodes| - 1];
      && NestedNode(source, n)
      && lo <= n.raw.value.lo && n.raw.value.hi <= hi
      && Nested(source, nodes[..|nodes| - 1], lo, n.raw.value.lo)
  }

  predicate NestedNode(source: Bytes, n: Node)
    decreases n
  {
    && n.raw.Some?
    && n.raw.value.source == source
    && n.raw.value.lo < n.raw.value.hi <= |source|
    && Nested(source, n.children, n.raw.value.lo + 1, n.raw.value.hi - 1)
  }

  lemma NestedWiden(source: Bytes, nodes: seq<Node>, lo: int, hi: int, hi': int)
    requires Nested(source, nodes, lo, hi) && hi <= hi'
    ensures Nested(source, nodes, lo, hi')
  {}

  // ----- the invariant -----

  /** One level of open blocks: its nodes, its finished segments, and the offsets they span. */
  ghost predicate Level(source: Bytes, nodes: seq<Node>, segs: seq<Segment>, base: nat, lo: int, end: nat) {
    && Chain(segs, base, end)
    && Carries(source, nodes, segs)
    && Nested(source, nodes, lo, end)
  }

  ghost function NodesAt(doc: seq<Node>, blocks: seq<Block>): seq<Node> {
    if blocks == [] then doc else blocks[|blocks| - 1].owner.node.children
  }

  ghost function BaseAt(blocks: seq<Block>): nat {
    if blocks == [] then 0 else blocks[|blocks| - 1].base
  }

  ghost function LowAt(blocks: seq<Block>): int {
    if blocks == [] then 0 else blocks[|blocks| - 1].owner.start + 1
  }

  ghost predicate LevelAt(source: Bytes, doc: seq<Node>, blocks: seq<Block>, segs: seq<Segment>, end: nat) {
    Level(source, NodesAt(doc, blocks), segs, BaseAt(blocks), LowAt(blocks), end)
  }

  /** Every level around the innermost one is in order, and each owner starts where its level had ended. */
  ghost predicate Outer(source: Bytes, doc: seq<Node>, blocks: seq<Block>)
    decreases |blocks|
  {
    blocks != [] ==>
      var k := |blocks| - 1;
      var b := blocks[k];
      && Outer(source, doc, blocks[..k])
      && LevelAt(source, doc, blocks[..k], b.outer, b.savedEnd)
      && b.owner.start == b.savedEnd < b.base
  }

  /** The segments finished at the top level. */
  ghost function TopSegments(c: Config): seq<Segment> {
    if c.blocks == [] then c.segments else c.blocks[0].outer
  }

  /** After reading source[..p]. */
  ghost predicate Tiled(source: Bytes, c: Config, p: nat) {
    && Outer(source, c.doc, c.blocks)
    && LevelAt(source, c.doc, c.blocks, c.segments, c.lastEnd)
    && c.lastEnd <= p <= |source|
    && |c.doc| == Kept(TopSegments(c))
    && (c.phase.Inside? ==>
          && c.phase.open.start == c.lastEnd < p
          && Nested(source, c.phase.open.node.children, c.phase.open.start + 1, p - 1))
  }

  lemma InitiallyTiled(source: Bytes)
    ensures Tiled(source, INITIAL, 0)
  {}

  /** A finished node extends its level by its segment. */
  lemma LevelExtends(source: Bytes, nodes: seq<Node>, segs: seq<Segment>, base: nat, lo: int, s: Segment, node: Node)
    requires Level(source, nodes, segs, base, lo, s.lo) && s.lo < s.hi <= |source| && lo <= s.lo
    requires !s.ignored ==> NestedNode(source, node) && node.raw == Some(RawSegment(source, s.lo, s.hi))
    ensures Level(source, if s.ignored then nodes else nodes + [node], segs + [s], base, lo, s.hi)
    ensures Kept(segs + [s]) == Kept(segs) + if s.ignored then 0 else 1
  {
    assert (segs + [s])[..|segs + [s]| - 1] == segs;
    if s.ignored {
      NestedWiden(source, nodes, lo, s.lo, s.hi);
    } else {
      assert (nodes + [node])[..|nodes + [node]| - 1] == nodes;
    }
  }

  /** Attaching changes the nodes of the innermost level and nothing else. */
  lemma AttachNodes(source: Bytes, c: Config, o: OpenNode, node: Node)
    requires Outer(source, c.doc, c.blocks)
    ensures var d := Attach(c, o, node);
            && Outer(source, d.doc, d.blocks)
            && NodesAt(d.doc, d.blocks) == (if o.ignored then NodesAt(c.doc, c.blocks) else NodesAt(c.doc, c.blocks) + [node])
            && BaseAt(d.blocks) == BaseAt(c.blocks) && LowAt(d.blocks) == LowAt(c.blocks)
            && |d.blocks| == |c.blocks|
            && (c.blocks != [] ==> d.doc == c.doc && d.blocks[0].outer == c.blocks[0].outer)
  {
    var d := Attach(c, o, node);
    if !o.ignored && c.blocks != [] {
      assert d.blocks[..|d.blocks| - 1] == c.blocks[..|c.blocks| - 1];
    }
  }

  lemma CloseNested(e: Env, o: OpenNode, end: nat)
    requires o.start < end <= |e.source| && Nested(e.source, o.node.children, o.start + 1, end - 1)
    ensures !o.ignored ==> NestedNode(e.source, Close(e, o, end)) && Close(e, o, end).raw == Some(RawSegment(e.source, o.start, end))
  {}

  lemma EndTiled(e: Env, c: Config, end: nat, p: nat)
    requires Tiled(e.source, c, p) && c.phase.Inside? && p <= end <= |e.source|
    ensures Tiled(e.source, EndNode(e, c, end), end)
  {
    hide Close;
    var o := c.phase.open;
    var s := Segment(o.start, end, o.ignored);
    NestedWiden(e.source, o.node.children, o.start + 1, p - 1, end - 1);
    CloseNested(e, o, end);
    LowBelow(e.source, c, p);
    LevelExtends(e.source, NodesAt(c.doc, c.blocks), c.segments, BaseAt(c.blocks), LowAt(c.blocks), s, Close(e, o, end));
    AttachNodes(e.source, c, o, Close(e, o, end));
  }

  lemma LowBelow(source: Bytes, c: Config, p: nat)
    requires Tiled(source, c, p)
    ensures LowAt(c.blocks) <= c.lastEnd
  {
    LevelOrder(c.segments, BaseAt(c.blocks), c.lastEnd);
  }

  lemma OpenTiled(e: Env, c: Config, t: Token, p: nat)
    requires Tiled(e.source, c, p) && c.phase.Inside? && t.offset == p < |e.source|
    ensures Tiled(e.source, OpenBlock(c, t), p + 1)
  {
    var d := OpenBlock(c, t);
    var k := |d.blocks| - 1;
    assert d.blocks[..k] == c.blocks;
    NestedWiden(e.source, c.phase.open.node.children, c.phase.open.start + 1, p - 1, p + 1);
  }

  lemma CloseTiled(source: Bytes, c: Config, p: nat)
    requires Tiled(source, c, p) && c.phase.Between? && c.blocks != [] && p < |source|
    ensures Tiled(source, CloseBlock(c), p + 1)
  {
    var b := c.blocks[|c.blocks| - 1];
    LevelOrder(c.segments, b.base, c.lastEnd);
    NestedWiden(source, b.owner.node.children, b.owner.start + 1, c.lastEnd, p);
  }

  lemma {:induction false} LevelOrder(segs: seq<Segment>, from: nat, to: nat)
    requires Chain(segs, from, to)
    ensures from <= to
    decreases |segs|
  {
    if segs != [] {
      LevelOrder(segs[..|segs| - 1], from, segs[|segs| - 1].lo);
    }
  }

  lemma TiledLater(source: Bytes, c: Config, p: nat, q: nat)
    requires Tiled(source, c, p) && p <= q <= |source|
    ensures Tiled(source, c, q)
  {
    if c.phase.Inside? {
      NestedWiden(source, c.phase.open.node.children, c.phase.open.start + 1, p - 1, q - 1);
    }
  }

  lemma StructureTiled(source: Bytes, c: Config, d: Config, p: nat)
    requires Tiled(source, c, p) && SameStructure(c, d)
    ensures Tiled(source, d, p)
  {
    assert SkeletonOf(c.phase) == SkeletonOf(d.phase);
  }

  /** A token that follows source[..p] without a gap, or EOF. */
  ghost predicate Next(e: Env, t: Token, p: nat, q: nat) {
    if t.id.EOF? then p <= q == |e.source| else t.offset == p < p + |t.data| == q <= |e.source|
  }

  /** Main result: each token keeps the tiling and the nesting at every level. */
  lemma StepTiled(e: Env, c: Config, t: Token, d: Config, p: nat, q: nat)
    requires Tiled(e.source, c, p) && Next(e, t, p, q) && Step(e, c, t) == Some(d)
    ensures Tiled(e.source, d, q)
  {
    hide Step, Tiled, EndNode, OpenBlock, CloseBlock;
    var mid, eff := StepEffect(e, c, t, d);
    StructureTiled(e.source, c, mid, p);
    match eff
    case Local => TiledLater(e.source, mid, p, q);
    case Started => StartTiled(e, c, t, mid, d, p, q);
    case Ended => EndTiled(e, mid, q, p);
    case Opened =>
      OpenTiled(e, mid, t, p);
      TiledLater(e.source, d, p + 1, q);
    case Closed =>
      CloseTiled(e.source, mid, p);
      TiledLater(e.source, d, p + 1, q);
    case EndedAndClosed =>
      EndTiled(e, mid, p, p);
      EndedStillOpen(e, mid, p);
      CloseTiled(e.source, EndNode(e, mid, p), p);
      TiledLater(e.source, d, p + 1, q);
  }

  lemma EndedStillOpen(e: Env, c: Config, end: nat)
    requires c.phase.Inside?
    ensures EndNode(e, c, end).phase.Between? && |EndNode(e, c, end).blocks| == |c.blocks|
  {}

  lemma StartTiled(e: Env, c: Config, t: Token, mid: Config, d: Config, p: nat, q: nat)
    requires Tiled(e.source, mid, p) && Next(e, t, p, q) && Has(e, c, t, mid, Started, d)
    ensures Tiled(e.source, d, q)
  {}

  /** Main result, for whole runs: after any tokens that tile source[p..q], so does every level. */
  lemma {:induction false} RunTiled(e: Env, c: Config, tokens: seq<Token>, d: Config, p: nat, q: nat)
    requires Tiled(e.source, c, p) && Tiles(e.source, tokens, p, q) && Run(e, c, tokens) == Some(d)
    ensures Tiled(e.source, d, q)
    decreases |tokens|
  {
    hide Step, Tiled;
    if tokens != [] {
      var t := tokens[0];
      var m := Step(e, c, t).value;
      StepTiled(e, c, t, m, p, p + |t.data|);
      RunTiled(e, m, tokens[1..], d, p + |t.data|, q);
    }
  }

  lemma ParseTiled(e: Env, tokens: seq<Token>, d: Config, q: nat)
    requires Tiles(e.source, tokens, 0, q) && q <= |e.source| && ParseAll(e, tokens) == Some(d)
    ensures Tiled(e.source, d, |e.source|)
  {
    hide Step, Tiled;
    RunAppend(e, INITIAL, tokens, [EOF_TOKEN]);
    var m := Run(e, INITIAL, tokens).value;
    InitiallyTiled(e.source);
    RunTiled(e, INITIAL, tokens, m, 0, q);
    assert Run(e, m, [EOF_TOKEN]) == Step(e, m, EOF_TOKEN) by {
      if Step(e, m, EOF_TOKEN).Some? {
        assert [EOF_TOKEN][1..] == [];
      }
    }
    StepTiled(e, m, EOF_TOKEN, d, q, |e.source|);
  }

  // ----- what tiling gives -----

  /** The bytes of each segment. */
  ghost function Slices(source: Bytes, segs: seq<Segment>): seq<Bytes>
    decreases |segs|
  {
    if segs == [] then []
    else
      var s := segs[|segs| - 1];
      Slices(source, segs[..|segs| - 1]) + [RawSegment(source, s.lo, s.hi).Text()]
  }

  /** The finished segments of a level, put together, are the source between the ends of the level. */
  lemma {:induction false} ChainCovers(source: Bytes, segs: seq<Segment>, from: nat, to: nat)
    requires Chain(segs, from, to) && to <= |source|
    ensures from <= to && Concat(Slices(source, segs)) == source[from..to]
    decreases |segs|
  {
    if segs != [] {
      var k := |segs| - 1;
      ChainCovers(source, segs[..k], from, segs[k].lo);
      var front := Slices(source, segs[..k]);
      assert Slices(source, segs)[..|Slices(source, segs)| - 1] == front;
      assert source[from..segs[k].lo] + source[segs[k].lo..to] == source[from..to];
    }
  }
}
