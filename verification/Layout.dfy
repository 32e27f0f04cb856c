// How printed nodes are laid out: every line begins with as many copies of the indentation as blocks are open around it.
module Layout {
  import opened Basics
  import opened Tokens
  import opened Documents
  import opened Generator
  import opened Joining
  import opened Printing
  import Appending
  import Multiline
  import Sourceless

  /** n copies of a unit: the unit, repeated with its own length as the period. */
  predicate Copies(b: Bytes, unit: Bytes, n: nat)
    requires unit != []
  {
    |b| == n * |unit| && (n > 0 ==> unit <= b) && forall k :: |unit| <= k < |b| ==> b[k] == b[k - |unit|]
  }

  lemma {:induction false} TimesIsCopies(unit: Bytes, n: nat)
    requires unit != []
    ensures Copies(Times(unit, n), unit, n) && (n > 0 ==> Times(unit, n)[|Times(unit, n)| - |unit|..] == unit)
  {
    if n > 0 {
      TimesIsCopies(unit, n - 1);
      var front := Times(unit, n - 1);
      var b := front + unit;
      assert |b| == n * |unit|;
      forall k | |unit| <= k < |b| ensures b[k] == b[k - |unit|] {
        if k >= |front| { assert b[k] == unit[k - |front|] == front[|front| - |unit|..][k - |front|]; }
      }
    }
  }

  // ----- lines -----

  predicate LineStart(ps: seq<Piece>, i: nat) {
    i < |ps| && (i == 0 || ps[i - 1].id.Newline?)
  }

  /** The line at i shuts a block. */
  predicate Shuts(ps: seq<Piece>, i: nat)
    requires i < |ps|
  {
    ps[i].id.BraceClose? || (ps[i].id.Whitespace? && i + 1 < |ps| && ps[i + 1].id.BraceClose?)
  }

  /** The line at i begins with exactly depth copies of the indentation. */
  predicate Indented(o: Options, ps: seq<Piece>, i: nat, depth: int)
    requires i < |ps|
  {
    && depth >= 0
    && if depth == 0 || o.indent == [] then !ps[i].id.Whitespace?
       else ps[i].id.Whitespace? && Copies(ps[i].data, o.indent, depth) && i + 1 < |ps| && !ps[i + 1].id.Whitespace?
  }

  /** Where base blocks are open in front of the pieces, every line is indented by the blocks that are open around it. */
  ghost predicate LaidOut(o: Options, base: int, ps: seq<Piece>) {
    forall i: nat :: LineStart(ps, i) ==> LineLaidOut(o, base, ps, i)
  }

  ghost predicate LineLaidOut(o: Options, base: int, ps: seq<Piece>, i: nat) {
    i < |ps| && Indented(o, ps, i, base + PieceBraces(ps[..i]) - if Shuts(ps, i) then 1 else 0)
  }

  predicate Ended(ps: seq<Piece>) { ps != [] ==> ps[|ps| - 1].id.Newline? }

  lemma LaidAppend(o: Options, base: int, a: seq<Piece>, b: seq<Piece>)
    requires LaidOut(o, base, a) && Ended(a) && LaidOut(o, base + PieceBraces(a), b)
    ensures LaidOut(o, base, a + b)
  {
    hide PieceBraces, Ended, LineLaidOut;
    LinesOfBoth(o, base, a, b, a + b);
  }

  lemma LinesOfBoth(o: Options, base: int, a: seq<Piece>, b: seq<Piece>, ps: seq<Piece>)
    requires ps == a + b && LaidOut(o, base, a) && Ended(a) && LaidOut(o, base + PieceBraces(a), b)
    ensures LaidOut(o, base, ps)
  {
    hide PieceBraces, Ended, LineLaidOut, LineStart, Alike;
    forall i: nat | LineStart(ps, i) ensures LineLaidOut(o, base, ps, i) {
      if i < |a| {
        FrontIsAlike(a, b, ps, i);
        SameLine(o, base, a, i, base, ps, i);
      } else {
        BackIsAlike(a, b, ps, i);
        SameLine(o, base + PieceBraces(a), b, i - |a|, base, ps, i);
      }
    }
  }

  /** A line starts at i in p, and one that begins alike at j in q, where so many more blocks are open. */
  predicate Alike(p: seq<Piece>, i: nat, q: seq<Piece>, j: nat, more: int) {
    && LineStart(p, i) && j < |q| && p[i] == q[j] && (i + 1 < |p| ==> j + 1 < |q| && p[i + 1] == q[j + 1])
    && PieceBraces(q[..j]) == PieceBraces(p[..i]) + more
  }

  /** A line is laid out as one is elsewhere that begins alike and has as many blocks open around it. */
  lemma SameLine(o: Options, x: int, p: seq<Piece>, i: nat, y: int, q: seq<Piece>, j: nat)
    requires LaidOut(o, x, p) && Alike(p, i, q, j, x - y)
    ensures LineLaidOut(o, y, q, j)
  {
    hide Copies, PieceBraces;
    assert LineLaidOut(o, x, p, i);
  }

  lemma FrontIsAlike(a: seq<Piece>, b: seq<Piece>, ps: seq<Piece>, i: nat)
    requires ps == a + b && Ended(a) && i < |a| && LineStart(ps, i)
    ensures Alike(a, i, ps, i, 0)
  {
    hide PieceBraces;
    assert ps[..i] == a[..i];
  }

  lemma BackIsAlike(a: seq<Piece>, b: seq<Piece>, ps: seq<Piece>, i: nat)
    requires ps == a + b && Ended(a) && |a| <= i && LineStart(ps, i)
    ensures Alike(b, i - |a|, ps, i, PieceBraces(a))
  {
    hide PieceBraces;
    var j := i - |a|;
    assert ps[..i] == a + b[..j];
    PieceBracesAppend(a, b[..j]);
    assert i > |a| ==> ps[i - 1] == b[j - 1];
  }

  /** A single line. */
  lemma LaidLine(o: Options, base: int, depth: nat, rest: seq<Piece>)
    requires rest != [] && !rest[0].id.Whitespace? && OneLine(rest) && base == depth + if rest[0].id.BraceClose? then 1 else 0
    ensures LaidOut(o, base, Indentation(o, depth) + rest)
  {
    var ps := Indentation(o, depth) + rest;
    if o.indent != [] { TimesIsCopies(o.indent, depth); }
    hide Copies;
    assert OneLine(ps);
    assert ps[..0] == [];
    forall i: nat | LineStart(ps, i) ensures i == 0 {}
  }

  // ----- nodes -----

  /** Nothing in the text of the node or below it is read as a brace or a newline, and no name as whitespace. */
  predicate Tidy(o: Options, n: Node)
    decreases n
  {
    && Inline(HeadPieces(o, n)) && !HeadPieces(o, n)[0].id.Whitespace?
    && Inline(ArgPieces(o, n.args)) && Inline(PropPieces(o, n.props))
    && forall k :: 0 <= k < |n.children| ==> Tidy(o, n.children[k])
  }

  lemma FirstLine(o: Options, depth: nat, n: Node, end: seq<Piece>)
    requires end == [SPACE, OPEN, LINE_FEED] || end == [LINE_FEED]
    requires Tidy(o, n)
    ensures var a := HeadPieces(o, n) + ArgPieces(o, n.args) + PropPieces(o, n.props) + end;
      LaidOut(o, depth, Indentation(o, depth) + a) && PieceBraces(Indentation(o, depth) + a) == |end| / 2
  {
    hide HeadPieces, ArgPieces, PropPieces, LaidOut;
    var b := HeadPieces(o, n) + ArgPieces(o, n.args) + PropPieces(o, n.props);
    HeadIsThere(o, n);
    assert Inline(b) && b[0] == HeadPieces(o, n)[0];
    assert OneLine(b + end);
    LaidLine(o, depth, depth, b + end);
    IndentInline(o, depth);
    InlineBraces(Indentation(o, depth) + b);
    EndBraces(end);
    PieceBracesAppend(Indentation(o, depth) + b, end);
    assert Indentation(o, depth) + (b + end) == Indentation(o, depth) + b + end;
  }

  lemma EndBraces(end: seq<Piece>)
    requires end == [SPACE, OPEN, LINE_FEED] || end == [LINE_FEED]
    ensures PieceBraces(end) == |end| / 2
  {
    MarkBraces();
    assert [SPACE, OPEN, LINE_FEED][1..] == [OPEN, LINE_FEED];
  }

  lemma HeadIsThere(o: Options, n: Node)
    ensures HeadPieces(o, n) != []
  {}

  /** Main result: every line of a printed node is indented by the blocks that are open around it. */
  lemma NodeIsLaidOut(o: Options, depth: nat, n: Node)
    requires Tidy(o, n)
    ensures LaidOut(o, depth, NodePieces(o, depth, n)) && Ended(NodePieces(o, depth, n)) && PieceBraces(NodePieces(o, depth, n)) == 0
    decreases n, 1
  {
    hide Indentation, HeadPieces, ArgPieces, PropPieces, NodesPieces, LaidOut, PieceBraces;
    if n.children == [] {
      FirstLine(o, depth, n, [LINE_FEED]);
      assert NodePieces(o, depth, n) == Indentation(o, depth)
        + (HeadPieces(o, n) + ArgPieces(o, n.args) + PropPieces(o, n.props) + [LINE_FEED]);
    } else {
      var end := [SPACE, OPEN, LINE_FEED];
      FirstLine(o, depth, n, end);
      var a := Indentation(o, depth) + (HeadPieces(o, n) + ArgPieces(o, n.args) + PropPieces(o, n.props) + end);
      var kids, shut := NodesPieces(o, depth + 1, n.children), Indentation(o, depth) + [SHUT, LINE_FEED];
      assert NodePieces(o, depth, n) == a + (kids + shut);
      ChildrenAreTidy(o, n);
      NodesAreLaidOut(o, depth + 1, n.children);
      ShutLine(o, depth);
      LaidAppend(o, depth + 1, kids, shut);
      LaidAppend(o, depth, a, kids + shut);
      PieceBracesAppend(kids, shut);
      PieceBracesAppend(a, kids + shut);
    }
  }

  lemma ChildrenAreTidy(o: Options, n: Node)
    requires Tidy(o, n)
    ensures forall k :: 0 <= k < |n.children| ==> Tidy(o, n.children[k])
  {}

  lemma ShutLine(o: Options, depth: nat)
    ensures var shut := Indentation(o, depth) + [SHUT, LINE_FEED];
      LaidOut(o, depth + 1, shut) && PieceBraces(shut) == -1
  {
    LaidLine(o, depth + 1, depth, [SHUT, LINE_FEED]);
    IndentInline(o, depth);
    InlineBraces(Indentation(o, depth));
    MarkBraces();
    PieceBracesAppend(Indentation(o, depth), [SHUT, LINE_FEED]);
  }

  lemma NodesAreLaidOut(o: Options, depth: nat, nodes: seq<Node>)
    requires forall k :: 0 <= k < |nodes| ==> Tidy(o, nodes[k])
    ensures LaidOut(o, depth, NodesPieces(o, depth, nodes)) && Ended(NodesPieces(o, depth, nodes)) && PieceBraces(NodesPieces(o, depth, nodes)) == 0
    decreases nodes, 0
  {
    hide NodePieces, Tidy, LaidOut;
    if nodes != [] {
      var k := |nodes| - 1;
      NodesAreLaidOut(o, depth, nodes[..k]);
      NodeIsLaidOut(o, depth, nodes[k]);
      var a, b := NodesPieces(o, depth, nodes[..k]), NodePieces(o, depth, nodes[k]);
      LaidAppend(o, depth, a, b);
      PieceBracesAppend(a, b);
    } else {
      NothingLaidOut(o, depth);
    }
  }

  lemma NothingLaidOut(o: Options, depth: nat)
    ensures LaidOut(o, depth, []) && PieceBraces([]) == 0
  {}

  /** Every node that can be printed so that it reads back is laid out so. */
  lemma PrintableIsTidy(o: Options, n: Node)
    requires CanPrint(o, n)
    ensures Tidy(o, n)
    decreases n
  {
    hide Multiline.BlankFrom, HeadPieces, ArgPieces, PropPieces;
    LineInline(o, 0, n);
    LineHasParts(o, n);
    HeadIsThere(o, n);
    HeadIsNoSpace(o, n);
    ChildrenCanPrint(o, n);
    forall k | 0 <= k < |n.children| ensures Tidy(o, n.children[k]) { PrintableIsTidy(o, n.children[k]); }
  }

  lemma HeadIsNoSpace(o: Options, n: Node)
    requires CanPrint(o, n) && HeadPieces(o, n) != []
    ensures !HeadPieces(o, n)[0].id.Whitespace?
  {
    hide Multiline.BlankFrom, ValueReadsBack;
    Appending.TextPieceIds(n.name.content.chars);
  }

  lemma LineHasParts(o: Options, n: Node)
    requires Inline(Line(o, 0, n))
    ensures Inline(HeadPieces(o, n)) && Inline(ArgPieces(o, n.args)) && Inline(PropPieces(o, n.props))
  {
    hide HeadPieces, ArgPieces, PropPieces;
    var a, b, c := HeadPieces(o, n), ArgPieces(o, n.args), PropPieces(o, n.props);
    assert Line(o, 0, n) == a + b + c;
    assert forall i :: 0 <= i < |a| ==> a[i] == (a + b + c)[i];
    assert forall i :: 0 <= i < |b| ==> b[i] == (a + b + c)[|a| + i];
    assert forall i :: 0 <= i < |c| ==> c[i] == (a + b + c)[|a| + |b| + i];
  }

  // ----- values -----

  /** The value is written without its annotation: it is spelled anew in hexadecimal. */
  predicate IsWrittenBare(o: Options, v: Value) {
    v.flag == FlagHexadecimal && v.content != NullValue && (!o.preserve || v.raw == None)
  }

  /** A value is its annotation in parentheses, which only a number spelled anew in hexadecimal goes without, and its bytes or its spelling. */
  lemma ValueIsWritten(o: Options, v: Value)
    ensures Render(ValuePieces(o, v)) ==
      (if v.typ == [] || IsWrittenBare(o, v) then [] else ['(' as int] + o.spelling.typeName(v.typ).data + [')' as int])
        + if o.preserve && v.raw.Some? then v.raw.value else o.spelling.value(v).data
  {
    var p := o.spelling.value(v);
    var last := if o.preserve && v.raw.Some? then p.(data := v.raw.value) else p;
    var typ := ShownType(o, v);
    RenderAppend(TypePieces(o, typ), [last]);
    RenderOne(last);
    if typ != [] { RenderThree(PAREN_OPEN, o.spelling.typeName(typ), PAREN_SHUT); }
    hide Render;
    NothingRendered();
  }

  lemma NothingRendered()
    ensures Render([]) == []
  {}

  // ----- the source -----

  lemma ChildrenAreBare(n: Node)
    ensures Sourceless.Bare(n).children == Sourceless.BareAll(n.children) && Sourceless.Bare(n) == n.(raw := None, children := Sourceless.Bare(n).children)
  {}

  lemma {:induction false} BareCount(nodes: seq<Node>)
    ensures |Sourceless.BareAll(nodes)| == |nodes|
    decreases |nodes|
  {
    hide Sourceless.Bare;
    if nodes != [] { BareCount(nodes[..|nodes| - 1]); }
  }

  lemma NodeIgnoresSource(o: Options, depth: nat, n: Node)
    ensures NodePieces(o, depth, Sourceless.Bare(n)) == NodePieces(o, depth, n)
    decreases n, 1
  {
    hide Indentation, ArgPieces, PropPieces, NodesPieces, Sourceless.Bare, Sourceless.BareAll;
    ChildrenAreBare(n);
    BareCount(n.children);
    NodesIgnoreSource(o, depth + 1, n.children);
  }

  lemma NodesIgnoreSource(o: Options, depth: nat, nodes: seq<Node>)
    ensures NodesPieces(o, depth, Sourceless.BareAll(nodes)) == NodesPieces(o, depth, nodes)
    decreases nodes, 0
  {
    hide NodePieces, Sourceless.Bare;
    if nodes != [] {
      var k := |nodes| - 1;
      NodesIgnoreSource(o, depth, nodes[..k]);
      NodeIgnoresSource(o, depth, nodes[k]);
      var a, b := Sourceless.BareAll(nodes[..k]), Sourceless.Bare(nodes[k]);
      assert Sourceless.BareAll(nodes) == a + [b] && (a + [b])[..|a|] == a;
    }
  }

  /** Main result: without preservation, what is written depends neither on the text the nodes were read from nor on what followed them. */
  lemma FormattingIgnoresSource(o: Options, d: Document, trailing: Bytes)
    requires !o.preserve
    ensures DocumentOutput(o, d) == DocumentOutput(o, Document(Sourceless.BareAll(d.nodes), trailing))
  {
    hide NodesOutput, Sourceless.BareAll;
    OutputIgnoresSource(o, d.nodes);
  }

  lemma {:induction false} OutputIgnoresSource(o: Options, nodes: seq<Node>)
    requires !o.preserve
    ensures NodesOutput(o, nodes) == NodesOutput(o, Sourceless.BareAll(nodes))
    decreases |nodes|
  {
    hide NodePieces, Render, Sourceless.Bare;
    if nodes != [] {
      var k := |nodes| - 1;
      OutputIgnoresSource(o, nodes[..k]);
      NodeIgnoresSource(o, 0, nodes[k]);
      var a, b := Sourceless.BareAll(nodes[..k]), Sourceless.Bare(nodes[k]);
      assert Sourceless.BareAll(nodes) == a + [b] && (a + [b])[..|a|] == a;
    }
  }
}
