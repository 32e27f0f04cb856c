// The parser's own states and its transition table: which token IDs and classes have a handler.
module ParserTable {
  import opened Basics
  import opened Tokens

  datatype ParserState =
    | StateDocument | StateNode | StateNodeParams | StateNodeEnd | StateArgProp | StateArgPropPostWS
    | StateProperty | StatePropertyValue | StateChildren | StateTypeAnnot | StateTypeDone

  /** The keys of the transition table for one state. */
  function Registered(s: ParserState): set<TokenID> {
    match s
    case StateDocument => {Whitespace, ClassIdentifier, ParensOpen, ClassTerminator, ClassComment, TokenComment, Continuation}
    case StateChildren => {Whitespace, ClassComment, TokenComment, ParensOpen, Continuation, Newline, Semicolon, ClassIdentifier, BraceClose}
    case StateTypeAnnot => {Whitespace, ClassComment, BareIdentifier, ClassString}
    case StateTypeDone => {Whitespace, ClassComment, ParensClose}
    case StateNode => {Whitespace, ClassTerminator, Continuation, BraceOpen, BraceClose, Equals}
    case StateNodeParams =>
      {Whitespace, Equals, TokenComment, MultiLineComment, SingleLineComment, Continuation, ParensOpen, BareIdentifier,
       SuffixedDecimal, ClassString, ClassNonStringValue, BraceOpen, ClassTerminator}
    case StateNodeEnd => {Whitespace, ClassEndOfLine, BraceClose}
    case StateProperty => {Whitespace, ClassComment, Continuation, Equals}
    case StateArgProp => {TokenComment, BraceOpen, Equals, Whitespace, Continuation, ClassTerminator, BraceClose, ClassValue}
    case StateArgPropPostWS =>
      {Whitespace, Equals, ClassValue, ParensOpen, BraceOpen, ClassTerminator, TokenComment, SingleLineComment,
       MultiLineComment, Continuation, BraceClose}
    case StatePropertyValue => {Whitespace, MultiLineComment, ClassComment, Continuation, ParensOpen, ClassValue}
  }

  function FirstIn(ids: seq<TokenID>, keys: set<TokenID>): Option<TokenID> {
    if ids == [] then None else if ids[0] in keys then Some(ids[0]) else FirstIn(ids[1..], keys)
  }

  /** The handler for a token: by its ID, else by the first of its classes that has one. */
  function Lookup(s: ParserState, id: TokenID): Option<TokenID> {
    if id in Registered(s) then Some(id) else FirstIn(Classes(id), Registered(s))
  }

  /** A real token ID, not a class. */
  predicate IsToken(id: TokenID) {
    !(id.ClassWhitespace? || id.ClassValue? || id.ClassIdentifier? || id.ClassNonStringValue? || id.ClassNumber?
      || id.ClassString? || id.ClassTerminator? || id.ClassEndOfLine? || id.ClassComment?)
  }

  lemma FirstOfThree(id: TokenID, keys: set<TokenID>)
    ensures var cs := Classes(id); |cs| <= 3
    ensures var cs := Classes(id);
            FirstIn(cs, keys) ==
              if |cs| > 0 && cs[0] in keys then Some(cs[0])
              else if |cs| > 1 && cs[1] in keys then Some(cs[1])
              else if |cs| > 2 && cs[2] in keys then Some(cs[2])
              else None
  {
    var cs := Classes(id);
    if |cs| > 0 {
      FirstCons(cs, keys);
      if |cs| > 1 {
        FirstCons(cs[1..], keys);
        if |cs| > 2 {
          FirstCons(cs[1..][1..], keys);
        }
      }
    }
  }

  lemma FirstCons(ids: seq<TokenID>, keys: set<TokenID>)
    requires ids != []
    ensures FirstIn(ids, keys) == if ids[0] in keys then Some(ids[0]) else FirstIn(ids[1..], keys)
  {}

  /** Main result about the table: what each state does with each token ID. */
  lemma LookupDocument(id: TokenID)
    requires IsToken(id)
    ensures Lookup(StateDocument, id) ==
              if IsIdentifier(id) then Some(ClassIdentifier)
              else if IsTerminator(id) then Some(ClassTerminator)
              else if IsComment(id) then Some(ClassComment)
              else if id.Whitespace? || id.ParensOpen? || id.TokenComment? || id.Continuation? then Some(id)
              else None
  {
    FirstOfThree(id, Registered(StateDocument));
  }

  lemma LookupChildren(id: TokenID)
    requires IsToken(id)
    ensures Lookup(StateChildren, id) ==
              if IsIdentifier(id) then Some(ClassIdentifier)
              else if IsComment(id) then Some(ClassComment)
              else if id.Whitespace? || id.ParensOpen? || id.TokenComment? || id.Continuation? || id.Newline? || id.Semicolon? || id.BraceClose? then Some(id)
              else None
  {
    FirstOfThree(id, Registered(StateChildren));
  }

  lemma LookupAnnotation(id: TokenID)
    requires IsToken(id)
    ensures Lookup(StateTypeAnnot, id) ==
              if id.Whitespace? || id.BareIdentifier? then Some(id)
              else if IsComment(id) then Some(ClassComment)
              else if IsString(id) then Some(ClassString)
              else None
    ensures Lookup(StateTypeDone, id) ==
              if id.Whitespace? || id.ParensClose? then Some(id) else if IsComment(id) then Some(ClassComment) else None
  {
    FirstOfThree(id, Registered(StateTypeAnnot));
    FirstOfThree(id, Registered(StateTypeDone));
  }

  lemma LookupNode(id: TokenID)
    requires IsToken(id)
    ensures Lookup(StateNode, id) ==
              if IsTerminator(id) then Some(ClassTerminator)
              else if id.Whitespace? || id.Continuation? || id.BraceOpen? || id.BraceClose? || id.Equals? then Some(id)
              else None
  {
    FirstOfThree(id, Registered(StateNode));
  }

  lemma LookupNodeParams(id: TokenID)
    requires IsToken(id)
    ensures Lookup(StateNodeParams, id) ==
              if IsTerminator(id) then Some(ClassTerminator)
              else if IsString(id) then Some(ClassString)
              else if IsNonStringValue(id) && !id.SuffixedDecimal? then Some(ClassNonStringValue)
              else if id.Whitespace? || id.Equals? || id.TokenComment? || IsComment(id) || id.Continuation? || id.ParensOpen?
                   || id.BareIdentifier? || id.SuffixedDecimal? || id.BraceOpen? then Some(id)
              else None
  {
    FirstOfThree(id, Registered(StateNodeParams));
  }

  lemma LookupNodeEnd(id: TokenID)
    requires IsToken(id)
    ensures Lookup(StateNodeEnd, id) ==
              if id.Newline? || id.EOF? then Some(ClassEndOfLine)
              else if id.Whitespace? || id.BraceClose? then Some(id)
              else None
  {
    FirstOfThree(id, Registered(StateNodeEnd));
  }

  lemma LookupArgProp(id: TokenID)
    requires IsToken(id)
    ensures Lookup(StateArgProp, id) ==
              if IsTerminator(id) then Some(ClassTerminator)
              else if IsValue(id) then Some(ClassValue)
              else if id.TokenComment? || id.BraceOpen? || id.Equals? || id.Whitespace? || id.Continuation? || id.BraceClose? then Some(id)
              else None
  {
    FirstOfThree(id, Registered(StateArgProp));
  }

  lemma LookupArgPropPostWS(id: TokenID)
    requires IsToken(id)
    ensures Lookup(StateArgPropPostWS, id) ==
              if IsTerminator(id) then Some(ClassTerminator)
              else if IsValue(id) then Some(ClassValue)
              else if id.TokenComment? || id.BraceOpen? || id.Equals? || id.Whitespace? || id.Continuation? || id.BraceClose?
                   || id.ParensOpen? || IsComment(id) then Some(id)
              else None
  {
    FirstOfThree(id, Registered(StateArgPropPostWS));
  }

  lemma LookupPropertyValue(id: TokenID)
    requires IsToken(id)
    ensures Lookup(StatePropertyValue, id) ==
              if IsValue(id) then Some(ClassValue)
              else if id.SingleLineComment? then Some(ClassComment)
              else if id.Whitespace? || id.MultiLineComment? || id.Continuation? || id.ParensOpen? then Some(id)
              else None
  {
    FirstOfThree(id, Registered(StatePropertyValue));
  }
}
