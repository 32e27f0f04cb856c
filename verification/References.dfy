// What the text of a schema ref refers to.
module References {
  import opened Basics
  import opened Schema

  // ----- trimming -----

  predicate AllDropped(s: string, drop: char -> bool) { forall k :: 0 <= k < |s| ==> drop(s[k]) }

  /** Nothing to trim at either end. */
  predicate Clean(s: string, drop: char -> bool) { s != "" ==> !drop(s[0]) && !drop(s[|s| - 1]) }

  lemma {:induction false} LeftIsTrimmed(a: string, s: string, drop: char -> bool)
    requires AllDropped(a, drop) && (s != "" ==> !drop(s[0]))
    ensures TrimLeft(a + s, drop) == s
  {
    if a == "" {
      assert a + s == s;
    } else {
      assert (a + s)[1..] == a[1..] + s;
      LeftIsTrimmed(a[1..], s, drop);
    }
  }

  lemma {:induction false} RightIsTrimmed(s: string, b: string, drop: char -> bool)
    requires AllDropped(b, drop) && (s != "" ==> !drop(s[|s| - 1]))
    ensures TrimRight(s + b, drop) == s
  {
    if b == "" {
      assert s + b == s;
    } else {
      assert (s + b)[..|s + b| - 1] == s + b[..|b| - 1];
      RightIsTrimmed(s, b[..|b| - 1], drop);
    }
  }

  /** Trimming takes off exactly what is to be dropped at both ends. */
  lemma TrimIs(a: string, s: string, b: string, drop: char -> bool)
    requires AllDropped(a, drop) && AllDropped(b, drop) && Clean(s, drop)
    ensures Trim(a + s + b, drop) == s
  {
    if s == "" {
      assert a + s + b == (a + b) + "";
      LeftIsTrimmed(a + b, "", drop);
    } else {
      assert a + s + b == a + (s + b);
      LeftIsTrimmed(a, s + b, drop);
      RightIsTrimmed(s, b, drop);
    }
  }

  lemma {:induction false} FirstIndex(s: string, c: char, i: nat, k: nat)
    requires i <= k <= |s| && (k < |s| ==> s[k] == c) && forall j :: i <= j < k ==> s[j] != c
    ensures IndexOf(s, c, i) == k
    decreases k - i
  {
    if i < k { FirstIndex(s, c, i + 1, k); }
  }

  // ----- refs -----

  const SPACES: set<char> := {' ', '\t', '\n', '\r', '\U{0B}', '\U{0C}', '\U{85}', '\U{A0}', '\U{1680}', '\U{2028}', '\U{2029}', '\U{202F}', '\U{205F}', '\U{3000}'}

  /** Nothing but white space. */
  predicate Spaces(s: string) { forall k :: 0 <= k < |s| ==> s[k] in SPACES || '\U{2000}' <= s[k] <= '\U{200A}' }

  predicate Quotes(s: string) { forall k :: 0 <= k < |s| ==> s[k] == '"' || s[k] == '\'' }

  predicate IsTarget(t: string) { t != "" ==> t[0] !in "\"'" && t[|t| - 1] !in "\"'" }

  predicate IsName(t: string) { Clean(t, IsSpace) && '>' !in t }

  lemma SpacesAre(s: string)
    ensures Spaces(s) <==> AllDropped(s, IsSpace)
  {
    forall c: char ensures IsSpace(c) <==> c in SPACES || '\U{2000}' <= c <= '\U{200A}' {}
  }

  /**
   * A ref by id: the id in any quotes, or none, in brackets, with white space around them. What stands in the place of the
   * closing bracket is not looked at.
   */
  lemma RefById(a: string, q: string, t: string, r: string, close: char, b: string)
    requires Spaces(a) && Spaces(b) && Quotes(q) && Quotes(r) && IsTarget(t) && !IsSpace(close)
    ensures ParseRef(a + ("[id=" + q + t + r + [close]) + b) == Some(ById(t))
  {
    var s := "[id=" + q + t + r + [close];
    SpacesAre(a);
    SpacesAre(b);
    assert s[0] == '[' && s[|s| - 1] == close;
    TrimIs(a, s, b, IsSpace);
    IdIsCutOut(q, t, r, close);
    TargetIsClean(q, t, r);
    hide TrimLeft, TrimRight, IsSpace, Spaces, Quotes;
    TrimIs(q, t, r, IsQuote);
  }

  lemma IdIsCutOut(q: string, t: string, r: string, close: char)
    ensures var s := "[id=" + q + t + r + [close]; "[id=" <= s && |s| >= 5 && s[4..|s| - 1] == q + t + r
  {}

  lemma TargetIsClean(q: string, t: string, r: string)
    requires Quotes(q) && Quotes(r) && IsTarget(t)
    ensures AllDropped(q, IsQuote) && AllDropped(r, IsQuote) && Clean(t, IsQuote)
  {}

  /** A ref by name: the word definitions, the sign and the name, with white space around each of them. */
  lemma RefByName(a: string, b: string, c: string, t: string, d: string)
    requires Spaces(a) && Spaces(b) && Spaces(c) && Spaces(d) && IsName(t) && t != ""
    ensures ParseRef(a + ("definitions" + b + ">" + c + t) + d) == Some(ByName(t))
  {
    var s := "definitions" + b + ">" + c + t;
    var k := |"definitions"| + |b|;
    SpacesAre(a);
    SpacesAre(b);
    SpacesAre(c);
    SpacesAre(d);
    assert s[0] == 'd' && s[|s| - 1] == t[|t| - 1];
    TrimIs(a, s, d, IsSpace);
    NoSign(b);
    NoSign(c);
    assert s[k] == '>' && forall j :: k < j < |s| ==> s[j] == (c + t)[j - k - 1];
    assert forall j :: 0 <= j < k ==> s[j] == ("definitions" + b)[j];
    FirstIndex(s, '>', 0, k);
    FirstIndex(s, '>', k + 1, |s|);
    assert s[..k] == "" + "definitions" + b && s[k + 1..] == c + t + "";
    TrimIs("", "definitions", b, IsSpace);
    TrimIs(c, t, "", IsSpace);
  }

  lemma NoSign(s: string)
    requires Spaces(s)
    ensures forall k :: 0 <= k < |s| ==> s[k] != '>'
  {}

  /** Everything else is refused: a text that does not start with the opening of an id has one sign, and definitions in front of it. */
  lemma OthersAreUnsupported(a: string, s: string, b: string)
    requires Spaces(a) && Spaces(b) && Clean(s, IsSpace) && !("[id=" <= s)
    requires forall k, c, d :: 0 <= k < |s| && s[k] == '>' && s[..k] == c + "definitions" + d && Spaces(c) && Spaces(d) ==> '>' in s[k + 1..]
    ensures ParseRef(a + s + b) == None
  {
    SpacesAre(a);
    SpacesAre(b);
    TrimIs(a, s, b, IsSpace);
    hide IndexOf, Trim, Spaces, AllDropped, Clean;
    var k := IndexOf(s, '>', 0);
    IndexIsThere(s, '>', 0);
    if k < |s| {
      IndexIsThere(s, '>', k + 1);
      if Trim(s[..k], IsSpace) == "definitions" {
        var c, d := Surroundings(s[..k], "definitions");
        assert s[..k] == c + "definitions" + d;
        SignBehind(s, k);
      }
    }
  }

  lemma SignBehind(s: string, k: nat)
    requires k < |s| && '>' in s[k + 1..]
    ensures IndexOf(s, '>', k + 1) < |s|
  {
    IndexIsThere(s, '>', k + 1);
    var j :| 0 <= j < |s[k + 1..]| && s[k + 1..][j] == '>';
    assert s[k + 1 + j] == '>';
  }

  /** What white space was trimmed off. */
  lemma Surroundings(s: string, core: string) returns (c: string, d: string)
    requires Trim(s, IsSpace) == core
    ensures s == c + core + d && Spaces(c) && Spaces(d)
  {
    var p := Ends(s, IsSpace);
    c, d := p.0, p.2;
    TrimIs(p.0, p.1, p.2, IsSpace);
    SpacesAre(c);
    SpacesAre(d);
  }

  lemma {:induction false} IndexIsThere(s: string, c: char, i: nat)
    requires i <= |s|
    ensures var k := IndexOf(s, c, i); (k < |s| ==> s[k] == c) && forall j :: i <= j < k ==> s[j] != c
    decreases |s| - i
  {
    if i < |s| && s[i] != c { IndexIsThere(s, c, i + 1); }
  }

  /** What is trimmed off a text, and what is left. */
  function Ends(s: string, drop: char -> bool): (p: (string, string, string))
    ensures s == p.0 + p.1 + p.2 && AllDropped(p.0, drop) && AllDropped(p.2, drop) && Clean(p.1, drop)
  {
    if s == "" then ("", "", "")
    else if drop(s[0]) then var r := Ends(s[1..], drop); assert s == [s[0]] + s[1..]; ([s[0]] + r.0, r.1, r.2)
    else if drop(s[|s| - 1]) then var r := Ends(s[..|s| - 1], drop); assert s == s[..|s| - 1] + [s[|s| - 1]]; (r.0, r.1, r.2 + [s[|s| - 1]])
    else ("", s, "")
  }

  // ----- what is found -----

  /** Definition d is what a ref by id or by name asks for; values and children have no names. */
  predicate IsAskedFor(d: Def, r: Ref) {
    if r.ById? then d.id == r.target else (d.kind.Node? || d.kind.Property? || d.kind.Tag?) && d.name == r.target
  }

  /** What is found is of the kind of the referrer and asked for, and stands in front of all others that are. */
  lemma FoundIsAskedFor(store: seq<Def>, defs: Definitions, kind: Kind, ref: string)
    requires Listed(store, defs, kind)
    ensures match Find(store, defs, kind, ref)
      case Some(t) =>
        && ParseRef(ref).Some? && t < |store| && store[t].kind == kind && IsAskedFor(store[t], ParseRef(ref).value)
        && exists k: nat :: k < |defs.Of(kind)| && defs.Of(kind)[k] == t
            && forall j: nat :: j < k && defs.Of(kind)[j] < |store| ==> !IsAskedFor(store[defs.Of(kind)[j]], ParseRef(ref).value)
      case None => ParseRef(ref).Some? ==> forall k: nat :: k in defs.Of(kind) && k < |store| ==> !IsAskedFor(store[k], ParseRef(ref).value)
  {}

  // ----- what is resolved with a definition -----

  /**
   * Where resolution has settled a definition, it has settled all that is nested in it, kind by kind, and if the definition has
   * a ref, the definition that the ref finds.
   */
  lemma NestedIsSettled(init: seq<Def>, defs: Option<Definitions>, settled: set<nat>, i: nat)
    requires WellFormed(init, defs) && Closed(init, defs, settled) && i in settled && (init[i].ref != "" ==> defs.Some?)
    ensures var d := init[i];
      && (d.kind.Node? ==> forall k: nat :: k in d.props || k in d.values || k in d.tags || d.children == Some(k) ==> k in settled)
      && (d.kind.Children? ==> forall k: nat :: k in d.nodes ==> k in settled)
      && (d.kind.Tag? && d.ref != "" ==> forall k: nat :: k in d.nodes ==> k in settled)
      && (d.ref != "" ==> Target(init, defs, i).Some? && Target(init, defs, i).value in settled)
  {
    assert Settles(init, defs, settled, i);
    hide Target;
  }

  /**
   * Without a ref, a property, a value or a tag is resolved whatever else is wrong; without a definitions block, it is resolved
   * even with one, and a node or a children definition is not.
   */
  lemma ResolvedWithoutLooking(init: seq<Def>, defs: Option<Definitions>, seen: set<string>, i: nat)
    requires WellFormed(init, defs) && i < |init|
    ensures init[i].kind in {Property, Val, Tag} && (init[i].ref == "" || defs == None) ==> Resolvable(init, defs, seen, i)
    ensures init[i].kind in {Kind.Node, Children} && init[i].ref != "" && defs == None ==> !Resolvable(init, defs, seen, i)
  {}
}
