// The document tree as a value: what the parser builds and the writers print.
module Documents {
  import opened Basics
  import opened Tokens

  /** A decoded value. Numbers and keywords keep their spelling, as number parsing is not modelled. */
  datatype Content = NullValue | Text(chars: Bytes) | Literal(id: TokenID, spelling: Bytes)

  /** How a token becomes a value; None is a decoding error. */
  type Decoder = Token -> Option<Content>

  /** How a value was spelled in its source, and is to be spelled again. */
  datatype Flag = NoFlag | FlagRaw | FlagQuoted | FlagBinary | FlagOctal | FlagHexadecimal

  datatype Value = Value(content: Content, typ: Bytes, raw: Option<Bytes>, flag: Flag := NoFlag)

  /** A sub-slice of a source buffer. */
  datatype RawSegment = RawSegment(source: Bytes, lo: nat, hi: nat) {
    function Text(): Bytes {
      if lo <= hi <= |source| then source[lo..hi] else []
    }
  }

  datatype Prop = Prop(key: Bytes, value: Value)

  datatype Node = Node(name: Value, typ: Bytes, args: seq<Value>, props: seq<Prop>, children: seq<Node>, raw: Option<RawSegment>)

  datatype Document = Document(nodes: seq<Node>, trailing: Bytes)

  function FlagOf(id: TokenID): Flag {
    if id.QuotedString? || id.MultilineString? then FlagQuoted
    else if id.RawString? || id.MultilineRawString? then FlagRaw
    else if id.Binary? then FlagBinary
    else if id.Octal? then FlagOctal
    else if id.Hexadecimal? then FlagHexadecimal
    else NoFlag
  }

  /** The value of a token, annotated with the data of typ when typ is a valid token. */
  function ValueOf(decode: Decoder, t: Token, typ: Token): Option<Value> {
    var content :- decode(t);
    Some(Value(content, if typ.Valid() then typ.data else [], if t.data != [] then Some(t.data) else None, FlagOf(t.id)))
  }

  /** The property key a decoded value stands for. */
  function KeyText(c: Content): Bytes {
    match c
    case NullValue => ['#' as int, 'n' as int, 'u' as int, 'l' as int, 'l' as int]
    case Text(chars) => chars
    case Literal(_, spelling) => spelling
  }

  predicate HasKey(props: seq<Prop>, key: Bytes) {
    exists i :: 0 <= i < |props| && props[i].key == key
  }

  /** Insertion-ordered update: a new key goes last, a known key keeps its place and takes the new value. */
  function Put(props: seq<Prop>, key: Bytes, value: Value): seq<Prop> {
    if props == [] then [Prop(key, value)]
    else if props[0].key == key then [Prop(key, value)] + props[1..]
    else [props[0]] + Put(props[1..], key, value)
  }

  predicate DistinctKeys(props: seq<Prop>) {
    forall i, j :: 0 <= i < j < |props| ==> props[i].key != props[j].key
  }

  lemma {:induction false} PutFresh(props: seq<Prop>, key: Bytes, value: Value)
    requires forall i :: 0 <= i < |props| ==> props[i].key != key
    ensures Put(props, key, value) == props + [Prop(key, value)]
  {
    if props != [] {
      PutFresh(props[1..], key, value);
      assert [props[0]] + (props[1..] + [Prop(key, value)]) == props + [Prop(key, value)];
    }
  }
}
