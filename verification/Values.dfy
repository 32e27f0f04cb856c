// What a token means: the value parser for text, with numbers and keywords kept as they are spelled.
module Values {
  import opened Basics
  import opened Tokens
  import opened Documents
  import Strings
  import RawStrings
  import Multiline

  function AsText(chars: Option<Bytes>): Option<Content> {
    if chars.Some? then Some(Text(chars.value)) else None
  }

  /** ValueFromToken */
  function Meaning(t: Token): Option<Content> {
    if t.id.QuotedString? then AsText(Strings.Unquoted(t.data))
    else if t.id.BareIdentifier? then Some(Text(t.data))
    else if t.id.RawString? then AsText(RawStrings.Parsed(t.data))
    else if t.id.MultilineString? then AsText(Multiline.QuotedText(t.data))
    else if t.id.MultilineRawString? then AsText(Multiline.RawText(t.data))
    else if IsNonStringValue(t.id) && !t.id.Null? then Some(Literal(t.id, t.data))
    else Some(NullValue)
  }

  /** Names and keys are texts, whichever way they are written; what is bare stands for itself. Numbers and keywords keep their spelling. */
  lemma IdentifiersMeanText(t: Token)
    requires IsValue(t.id)
    ensures IsIdentifier(t.id) && Meaning(t).Some? ==> Meaning(t).value.Text? && KeyText(Meaning(t).value) == Meaning(t).value.chars
    ensures t.id.BareIdentifier? ==> Meaning(t) == Some(Text(t.data))
    ensures !IsIdentifier(t.id) ==> Meaning(t) == Some(if t.id.Null? then NullValue else Literal(t.id, t.data))
  {}
}
