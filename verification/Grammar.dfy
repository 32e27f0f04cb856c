// Documents as syntax trees over tokens, with whitespace, comments, escaped line breaks, annotations and slashdashes wherever
// they may stand, what they mean, and that the parser computes this meaning.
module Grammar {
  import opened Basics
  import opened Tokens
  import opened Documents
  import opened Machine

  // ----- syntax -----

  /** Between the parts of a node: whitespace, a comment, or a line break behind a backslash. */
  datatype Trivium = Blank(t: Token) | Escline(slash: Token, fill: seq<Token>, newline: Token)

  /** In front of an entry: whitespace, and whatever may stand behind it. */
  datatype Gap = Gap(first: Token, more: seq<Trivium>)

  datatype Annotated = Annotated(open: Token, before: seq<Token>, name: Token, behind: seq<Token>, shut: Token)

  datatype Literal = Literal(annotation: Option<Annotated>, space: seq<Trivium>, value: Token)

  datatype Entry = Arg(literal: Literal) | Property(key: Token, mid: Option<Gap>, equals: Token, space: seq<Trivium>, literal: Literal)

  datatype Slash = Slash(token: Token, space: seq<Trivium>)

  datatype Item = Item(gap: Gap, slash: Option<Slash>, entry: Entry)

  datatype Braces = Braces(gap: Option<Gap>, slash: Option<Slash>, open: Token, nodes: seq<Line>, last: Option<Line>, lead: seq<Token>, shut: Token)

  /** How a node ends: at a terminator, at a comment and the end of its line, or at the brace that closes the block around it. */
  datatype Ending = Ended(gap: Option<Gap>, t: Token) | Commented(front: Gap, comment: Token, blanks: seq<Token>, t: Token) | Unended

  datatype Line = Line(lead: seq<Token>, slash: Option<Token>, more: seq<Token>, annotation: Option<Annotated>, space: seq<Token>, name: Token,
                       items: seq<Item>, blocks: seq<Braces>, ending: Ending)

  // ----- its tokens -----

  function TriviaTokens(space: seq<Trivium>): seq<Token> {
    if space == [] then []
    else (match space[0]
          case Blank(t) => [t]
          case Escline(slash, fill, newline) => [slash] + fill + [newline]) + TriviaTokens(space[1..])
  }

  function GapTokens(gap: Gap): seq<Token> { [gap.first] + TriviaTokens(gap.more) }

  function GapIfAny(gap: Option<Gap>): seq<Token> { if gap.Some? then GapTokens(gap.value) else [] }

  function AnnotationTokens(a: Option<Annotated>): seq<Token> {
    if a.Some? then [a.value.open] + (a.value.before + ([a.value.name] + (a.value.behind + [a.value.shut]))) else []
  }

  function LiteralTokens(l: Literal): seq<Token> { AnnotationTokens(l.annotation) + (TriviaTokens(l.space) + [l.value]) }

  function EntryTokens(x: Entry): seq<Token> {
    match x
    case Arg(l) => LiteralTokens(l)
    case Property(key, mid, equals, space, l) => [key] + (GapIfAny(mid) + ([equals] + (TriviaTokens(space) + LiteralTokens(l))))
  }

  function SlashTokens(s: Option<Slash>): seq<Token> { if s.Some? then [s.value.token] + TriviaTokens(s.value.space) else [] }

  function ItemTokens(i: Item): seq<Token> { GapTokens(i.gap) + (SlashTokens(i.slash) + EntryTokens(i.entry)) }

  function ItemsTokens(items: seq<Item>): seq<Token> {
    if items == [] then [] else ItemTokens(items[0]) + ItemsTokens(items[1..])
  }

  function EndingTokens(x: Ending): seq<Token> {
    match x
    case Ended(gap, t) => GapIfAny(gap) + [t]
    case Commented(front, comment, blanks, t) => GapTokens(front) + ([comment] + (blanks + [t]))
    case Unended => []
  }

  function LineTokens(l: Line): seq<Token>
    decreases l, 1
  {
    HeadTokens(l) + (ItemsTokens(l.items) + (BlocksTokens(l.blocks) + EndingTokens(l.ending)))
  }

  function HeadTokens(l: Line): seq<Token> {
    l.lead + ((if l.slash.Some? then [l.slash.value] else []) + (l.more + (AnnotationTokens(l.annotation) + (l.space + [l.name]))))
  }

  function BlocksTokens(blocks: seq<Braces>): seq<Token>
    decreases blocks, 0
  {
    if blocks == [] then [] else BracesTokens(blocks[0]) + BlocksTokens(blocks[1..])
  }

  function BracesTokens(b: Braces): seq<Token>
    decreases b, 0
  {
    GapIfAny(b.gap) + (SlashTokens(b.slash) + ([b.open]
      + (LinesTokens(b.nodes) + ((if b.last.Some? then LineTokens(b.last.value) else []) + (b.lead + [b.shut])))))
  }

  function LinesTokens(lines: seq<Line>): seq<Token>
    decreases lines, 2
  {
    if lines == [] then [] else LineTokens(lines[0]) + LinesTokens(lines[1..])
  }

  // ----- which trees are well formed, and can be decoded -----

  predicate IsFill(t: Token) { t.id.Whitespace? || IsComment(t.id) }

  predicate Fill(tokens: seq<Token>) { forall k :: 0 <= k < |tokens| ==> IsFill(tokens[k]) }

  /** Between nodes: whitespace, comments, line breaks and semicolons. */
  predicate Loose(tokens: seq<Token>) {
    forall k :: 0 <= k < |tokens| ==> IsFill(tokens[k]) || tokens[k].id.Newline? || tokens[k].id.Semicolon?
  }

  predicate IsTrivium(x: Trivium) {
    match x
    case Blank(t) => t.id.Whitespace? || t.id.MultiLineComment?
    case Escline(slash, fill, newline) => slash.id.Continuation? && Fill(fill) && newline.id.Newline?
  }

  predicate IsTrivia(space: seq<Trivium>) { forall k :: 0 <= k < |space| ==> IsTrivium(space[k]) }

  predicate IsGap(gap: Gap) { gap.first.id.Whitespace? && IsTrivia(gap.more) }

  predicate IsAnnotation(a: Option<Annotated>) {
    a.Some? ==> a.value.open.id.ParensOpen? && Fill(a.value.before) && IsIdentifier(a.value.name.id) && Fill(a.value.behind) && a.value.shut.id.ParensClose?
  }

  predicate IsLiteral(l: Literal) { IsAnnotation(l.annotation) && IsTrivia(l.space) && IsValue(l.value.id) && !l.value.id.SuffixedDecimal? }

  predicate IsEntry(x: Entry) {
    && IsLiteral(x.literal)
    && (x.Arg? ==> x.literal.annotation.None? ==> x.literal.space == [])
    && (x.Property? ==> IsIdentifier(x.key.id) && (x.mid.Some? ==> IsGap(x.mid.value)) && x.equals.id.Equals? && IsTrivia(x.space))
  }

  /** A slashdash; its target may stand on a later line. */
  predicate IsSlash(s: Option<Slash>) {
    s.Some? ==> (
      && s.value.token.id.TokenComment?
      && forall k :: 0 <= k < |s.value.space| ==> IsTrivium(s.value.space[k]) || (s.value.space[k].Blank? && s.value.space[k].t.id.Newline?))
  }

  predicate IsItem(decode: Decoder, i: Item) {
    && IsGap(i.gap) && IsSlash(i.slash) && IsEntry(i.entry)
    && (i.slash.None? ==> decode(i.entry.literal.value).Some? && (i.entry.Property? ==> decode(i.entry.key).Some?))
  }

  predicate AreItems(decode: Decoder, items: seq<Item>) { forall k :: 0 <= k < |items| ==> IsItem(decode, items[k]) }

  predicate IsEnding(x: Ending) {
    match x
    case Ended(gap, t) => (gap.Some? ==> IsGap(gap.value)) && (t.id.Newline? || t.id.Semicolon?)
    case Commented(front, comment, blanks, t) =>
      IsGap(front) && comment.id.SingleLineComment? && (forall k :: 0 <= k < |blanks| ==> blanks[k].id.Whitespace?) && t.id.Newline?
    case Unended => true
  }

  predicate IsHead(decode: Decoder, l: Line) {
    && Loose(l.lead) && (l.slash.Some? ==> l.slash.value.id.TokenComment?) && Loose(l.more) && IsAnnotation(l.annotation) && Fill(l.space)
    && IsIdentifier(l.name.id) && decode(l.name).Some?
  }

  predicate IsLine(decode: Decoder, l: Line)
    decreases l, 1
  {
    IsHead(decode, l) && AreItems(decode, l.items) && IsEnding(l.ending) && (l.ending.Unended? ==> l.blocks == []) && AreBlocks(decode, l.blocks)
  }

  predicate AreBlocks(decode: Decoder, blocks: seq<Braces>)
    decreases blocks, 0
  {
    blocks == [] || (IsBraces(decode, blocks[0]) && AreBlocks(decode, blocks[1..]))
  }

  predicate IsBraces(decode: Decoder, b: Braces)
    decreases b, 0
  {
    && (b.gap.Some? ==> IsGap(b.gap.value)) && IsSlash(b.slash) && (b.slash.Some? ==> b.gap.Some?) && b.open.id.BraceOpen?
    && AreLines(decode, b.nodes) && (b.last.Some? ==> IsLine(decode, b.last.value) && b.last.value.ending.Unended?)
    && Loose(b.lead) && (b.last.Some? ==> b.lead == []) && b.shut.id.BraceClose?
  }

  /** Lines that end of themselves. */
  predicate AreLines(decode: Decoder, lines: seq<Line>)
    decreases lines, 2
  {
    lines == [] || (IsLine(decode, lines[0]) && !lines[0].ending.Unended? && AreLines(decode, lines[1..]))
  }

  // ----- what they mean -----

  function TypeOf(a: Option<Annotated>): Token { if a.Some? then a.value.name else NO_TOKEN }

  /** A value with its annotation, as it is spelled. */
  function Meant(decode: Decoder, t: Token, a: Option<Annotated>): Value
    requires decode(t).Some?
  {
    Value(decode(t).value, if a.Some? then a.value.name.data else [], if t.data == [] then None else Some(t.data), FlagOf(t.id))
  }

  /** The node with an entry: an argument goes last, a property takes the place of the one with its key. */
  function WithEntry(decode: Decoder, n: Node, x: Entry): Node
    requires decode(x.literal.value).Some? && (x.Property? ==> decode(x.key).Some?)
  {
    var v := Meant(decode, x.literal.value, x.literal.annotation);
    if x.Arg? then n.(args := n.args + [v]) else n.(props := Put(n.props, KeyText(decode(x.key).value), v))
  }

  /** Slashdashed entries are left out. */
  function WithItems(decode: Decoder, n: Node, items: seq<Item>): Node
    requires AreItems(decode, items)
    decreases |items|
  {
    if items == [] then n
    else
      assert IsItem(decode, items[0]) && forall k :: 0 <= k < |items[1..]| ==> items[1..][k] == items[k + 1];
      WithItems(decode, if items[0].slash.Some? then n else WithEntry(decode, n, items[0].entry), items[1..])
  }

  function NodeOf(decode: Decoder, l: Line): Node
    requires IsLine(decode, l)
    decreases l, 1
  {
    var n := WithItems(decode, Node(Meant(decode, l.name, None), if l.annotation.Some? then l.annotation.value.name.data else [], [], [], [], None), l.items);
    n.(children := NodesIn(decode, l.blocks))
  }

  /** Slashdashed blocks are left out. */
  function NodesIn(decode: Decoder, blocks: seq<Braces>): seq<Node>
    requires AreBlocks(decode, blocks)
    decreases blocks, 0
  {
    if blocks == [] then [] else (if blocks[0].slash.Some? then [] else NodesWithin(decode, blocks[0])) + NodesIn(decode, blocks[1..])
  }

  function NodesWithin(decode: Decoder, b: Braces): seq<Node>
    requires IsBraces(decode, b)
    decreases b, 0
  {
    NodesOf(decode, b.nodes) + if b.last.Some? && b.last.value.slash.None? then [NodeOf(decode, b.last.value)] else []
  }

  /** Slashdashed nodes are left out. */
  function NodesOf(decode: Decoder, lines: seq<Line>): seq<Node>
    requires AreLines(decode, lines)
    decreases lines, 2
  {
    if lines == [] then [] else (if lines[0].slash.Some? then [] else [NodeOf(decode, lines[0])]) + NodesOf(decode, lines[1..])
  }

  // ----- documents -----

  /** Lines, the last of which the end of the input may end, and what stands behind them otherwise. */
  datatype Text = Text(lines: seq<Line>, last: Option<Line>, lead: seq<Token>)

  /** The line, ended by t: by a terminator, or by a comment and the end of its line. */
  function EndedBy(l: Line, t: Token): Line
    requires !l.ending.Unended?
  {
    l.(ending := l.ending.(t := t))
  }

  predicate IsText(decode: Decoder, d: Text) {
    && AreLines(decode, d.lines) && Loose(d.lead)
    && (d.last.Some? ==> d.lead == [] && IsLine(decode, d.last.value) && !d.last.value.ending.Unended? && d.last.value.ending.t.id.Newline?)
  }

  /** The tokens of a document, up to and with the one that ends it. */
  function TextTokens(decode: Decoder, d: Text, t: Token): seq<Token>
    requires IsText(decode, d)
  {
    LinesTokens(d.lines) + if d.last.Some? then LineTokens(EndedBy(d.last.value, t)) else d.lead + [t]
  }

  function NodesOfText(decode: Decoder, d: Text): seq<Node>
    requires IsText(decode, d)
  {
    NodesOf(decode, d.lines) + if d.last.Some? && d.last.value.slash.None? then [NodeOf(decode, d.last.value)] else []
  }
}
