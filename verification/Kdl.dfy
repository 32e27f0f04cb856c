// Parsing a whole source: the scanner feeding the parser, and what the format-preserving generator makes of the result.
module Kdl {
  import opened Basics
  import opened Tokens
  import opened Documents
  import opened Machine
  import opened Preserving
  import opened Scanning
  import Completeness
  import Generator
  import Lexer
  import Lossless
  import ParserContext
  import ParserRep
  import ParserTable

  /** The final configuration of a parse that meets neither a scanning nor a parsing error. */
  function Parsed(decode: Decoder, source: Bytes): Option<Config> {
    match Lexer.ScanFrom(source, 0, false)
    case Failed => None
    case Scanned(tokens, _) => ParseAll(Env(decode, source), tokens)
  }

  /** What is left to do from the scanner's position. */
  function Remaining(e: Env, c: Config, scan: Lexer.Scan): Option<Config> {
    match scan
    case Failed => None
    case Scanned(tokens, _) => Run(e, c, tokens + [EOF_TOKEN])
  }

  /** parse: one token at a time from the scanner to the parser, and EOF at the end. */
  method Parse(decode: Decoder, source: Bytes) returns (ok: bool, c: ParserContext.ParseContext)
    ensures ok <==> Parsed(decode, source).Some?
    ensures ok ==> c.env == Env(decode, source) && c.Represents() && c.abs == Parsed(decode, source).value
    ensures ok ==> ParserRep.Shows(c.store, c.doc, Visible(c.abs), 0, |c.store|)
  {
    hide Lexer.NextToken, Lexer.ScanFrom, Step, ParserRep.Rep, ParserRep.Shows, Cached;
    var s := new Scanner(source);
    c := new ParserContext.ParseContext(Env(decode, source));
    while true
      invariant s.Valid() && s.raw == source && c.Represents() && c.env == Env(decode, source)
      invariant Remaining(c.env, c.abs, Lexer.ScanFrom(source, s.pos, s.bomChecked)) == Parsed(decode, source)
      decreases |source| - s.pos
    {
      ghost var pos, checked := s.pos, s.bomChecked;
      var r := s.ReadNext();
      Lossless.ScanUnfolds(source, pos, checked);
      Lossless.TokensArePlain(source, pos, checked);
      match r {
        case Error =>
          return false, c;
        case End =>
          RunsToEof(c.env, c.abs);
          ok := c.Parse(EOF_TOKEN);
          if ok { c.ShowDocument(); }
          return;
        case Got(t) =>
          RemainingStep(c.env, c.abs, source, pos, checked);
          ok := c.Parse(t);
          if !ok { return; }
      }
    }
  }

  lemma RunsToEof(e: Env, c: Config)
    ensures Run(e, c, [] + [EOF_TOKEN]) == Step(e, c, EOF_TOKEN)
  {
    hide Step;
    assert [] + [EOF_TOKEN] == [EOF_TOKEN];
    assert [EOF_TOKEN][1..] == [];
  }

  lemma RemainingStep(e: Env, c: Config, source: Bytes, pos: nat, checked: bool)
    requires pos <= |source| && Lexer.NextToken(source, pos, checked).Lexed?
    ensures var r := Lexer.NextToken(source, pos, checked);
      var t := Reading(source, pos, r).value;
      ParserTable.IsToken(t.id) && match Step(e, c, t) {
        case None => Remaining(e, c, Lexer.ScanFrom(source, pos, checked)) == None
        case Some(d) => Remaining(e, c, Lexer.ScanFrom(source, pos, checked)) == Remaining(e, d, Lexer.ScanFrom(source, r.end, true))
      }
  {
    hide Step, Lexer.NextToken, Lexer.ScanFrom;
    var r := Lexer.NextToken(source, pos, checked);
    var t := Reading(source, pos, r).value;
    Lossless.ScanUnfolds(source, pos, checked);
    Lossless.TokensArePlain(source, pos, checked);
    var rest := Lexer.ScanFrom(source, r.end, true);
    if rest.Scanned? {
      assert ([t] + rest.tokens) + [EOF_TOKEN] == [t] + (rest.tokens + [EOF_TOKEN]);
      assert ([t] + (rest.tokens + [EOF_TOKEN]))[1..] == rest.tokens + [EOF_TOKEN];
    }
  }

  /**
   * Main result: for every source that parses, whose braces match and whose end does not meet a slashdash behind a
   * single-line comment, generating the document with PreserveFormatting gives the source back, byte for byte, exactly
   * when no node at the top level is slashdashed.
   */
  lemma SourceIsPreserved(decode: Decoder, source: Bytes, o: Generator.Options)
    requires Parsed(decode, source).Some? && o.preserve
    requires Completeness.ClosesAll(Env(decode, source), Lexer.ScanFrom(source, 0, false).tokens)
    ensures var e := Env(decode, source);
      (Generator.DocumentOutput(o, ParsedDocument(e, Parsed(decode, source).value)) == source)
      <==> !AnySlashdashAtTop(e, INITIAL, Lexer.ScanFrom(source, 0, false).tokens + [EOF_TOKEN])
  {
    hide Step, Lexer.ScanFrom, Lossless.Strands, Completeness.ClosesAll;
    Lossless.ScanTiles(source, 0, false);
    var scan := Lexer.ScanFrom(source, 0, false);
    PreservedIffNothingSlashdashed(Env(decode, source), scan.tokens, scan.stop, Parsed(decode, source).value, o);
  }
}
