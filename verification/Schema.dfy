// Reference resolution in schemas: definitions in a store, resolved and merged in place along a path-scoped set of refs.
module Schema {
  import opened Basics

  datatype Kind = Node | Property | Val | Children | Tag

  /** A definition. Its nested definitions are numbers in the store; bounds and names validations are opaque. */
  datatype Def = Def(kind: Kind, ref: string, id: string, name: string, description: string, validations: seq<nat>,
                     props: seq<nat>, values: seq<nat>, children: Option<nat>, tags: seq<nat>, nodes: seq<nat>,
                     names: Option<nat>, min: Option<int>, max: Option<int>)

  /** The definitions block: what can be referred to, by kind, in document order. */
  datatype Definitions = Definitions(nodes: seq<nat>, props: seq<nat>, values: seq<nat>, children: seq<nat>, tags: seq<nat>) {
    function Of(kind: Kind): seq<nat> {
      match kind
      case Node => nodes
      case Property => props
      case Val => values
      case Children => children
      case Tag => tags
    }
  }

  function AsList(o: Option<nat>): seq<nat> {
    if o.Some? then [o.value] else []
  }

  /** The nested definitions that resolution descends into. */
  function Kids(d: Def): seq<nat> {
    match d.kind
    case Node => d.props + d.values + AsList(d.children) + d.tags
    case Property => []
    case Val => []
    case Children => d.nodes
    case Tag => d.nodes
  }

  // ----- references -----

  predicate IsSpace(c: char) {
    c in {' ', '\t', '\n', '\r', '\U{0B}', '\U{0C}', '\U{85}', '\U{A0}', '\U{1680}', '\U{2028}', '\U{2029}', '\U{202F}', '\U{205F}', '\U{3000}'}
    || '\U{2000}' <= c <= '\U{200A}'
  }

  function TrimLeft(s: string, drop: char -> bool): string {
    if s != "" && drop(s[0]) then TrimLeft(s[1..], drop) else s
  }

  function TrimRight(s: string, drop: char -> bool): string {
    if s != "" && drop(s[|s| - 1]) then TrimRight(s[..|s| - 1], drop) else s
  }

  function Trim(s: string, drop: char -> bool): string { TrimRight(TrimLeft(s, drop), drop) }

  predicate IsQuote(c: char) { c == '"' || c == '\'' }

  datatype Ref = ById(target: string) | ByName(target: string)

  function IndexOf(s: string, c: char, i: nat): (k: nat)
    requires i <= |s|
    ensures i <= k <= |s|
    decreases |s| - i
  {
    if i < |s| && s[i] != c then IndexOf(s, c, i + 1) else i
  }

  /** parseRef; a ref that is nothing but the opening of an id pattern, which the parser cannot slice, counts as an error. */
  function ParseRef(ref: string): Option<Ref> {
    var s := Trim(ref, IsSpace);
    if "[id=" <= s then
      if |s| < 5 then None else Some(ById(Trim(s[4..|s| - 1], IsQuote)))
    else
      var k := IndexOf(s, '>', 0);
      if k < |s| && IndexOf(s, '>', k + 1) == |s| && Trim(s[..k], IsSpace) == "definitions"
      then Some(ByName(Trim(s[k + 1..], IsSpace)))
      else None
  }

  /** Values and children can only be found by id. */
  predicate Answers(d: Def, r: Ref) {
    match r
    case ById(target) => d.id == target
    case ByName(target) => !d.kind.Val? && !d.kind.Children? && d.name == target
  }

  /** Candidate k answers, and no earlier one does. */
  predicate FirstAt(store: seq<Def>, candidates: seq<nat>, r: Ref, k: nat) {
    && k < |candidates| && (forall j :: 0 <= j <= k ==> candidates[j] < |store|)
    && Answers(store[candidates[k]], r) && forall j :: 0 <= j < k ==> !Answers(store[candidates[j]], r)
  }

  lemma FirstBehind(store: seq<Def>, candidates: seq<nat>, r: Ref, k: nat)
    requires candidates != [] && candidates[0] < |store| && !Answers(store[candidates[0]], r) && FirstAt(store, candidates[1..], r, k)
    ensures FirstAt(store, candidates, r, k + 1)
  {
    assert forall j {:trigger candidates[1..][j]} :: 0 <= j <= k ==> candidates[1..][j] == candidates[j + 1];
    forall j | 0 <= j <= k + 1 ensures candidates[j] < |store| && (j <= k ==> !Answers(store[candidates[j]], r)) {
      if j > 0 { assert candidates[1..][j - 1] == candidates[j]; }
    }
  }

  /** The definition that answers first, in document order. */
  function First(store: seq<Def>, candidates: seq<nat>, r: Ref): (t: Option<nat>)
    requires forall k: nat :: k in candidates ==> k < |store|
    ensures t.Some? ==> t.value in candidates
    ensures t.Some? ==> exists k: nat :: FirstAt(store, candidates, r, k) && candidates[k] == t.value
    ensures t.None? ==> forall k: nat :: k in candidates ==> !Answers(store[k], r)
  {
    if candidates == [] then None else
    assert candidates[0] in candidates && forall k: nat :: k in candidates[1..] ==> k in candidates;
    if Answers(store[candidates[0]], r) then
      assert FirstAt(store, candidates, r, 0);
      Some(candidates[0])
    else
      var t := First(store, candidates[1..], r);
      assert t.Some? ==> exists k: nat :: FirstAt(store, candidates, r, k) && candidates[k] == t.value by {
        if t.Some? {
          var k: nat :| FirstAt(store, candidates[1..], r, k) && candidates[1..][k] == t.value;
          FirstBehind(store, candidates, r, k);
        }
      }
      t
  }

  /** Referable definitions have the kind they are listed under. */
  predicate Listed(store: seq<Def>, defs: Definitions, kind: Kind) {
    forall k: nat :: k in defs.Of(kind) ==> k < |store| && store[k].kind == kind
  }

  /** The definition a ref of the given kind stands for. */
  function Find(store: seq<Def>, defs: Definitions, kind: Kind, ref: string): (t: Option<nat>)
    requires Listed(store, defs, kind)
    ensures t.Some? ==> t.value < |store| && store[t.value].kind == kind
  {
    match ParseRef(ref)
    case None => None
    case Some(r) => First(store, defs.Of(kind), r)
  }

  // ----- merging -----

  function Or(a: string, b: string): string { if a == "" then b else a }

  function Else<T>(a: Option<T>, b: Option<T>): Option<T> { if a.None? then b else a }

  /** dst with what src adds; what dst says itself takes precedence. */
  function Merged(dst: Def, src: Def): (r: Def)
    ensures r.kind == dst.kind && r.ref == dst.ref && r.id == dst.id && r.name == dst.name
  {
    var d := dst.(description := Or(dst.description, src.description));
    match dst.kind
    case Node => d.(props := dst.props + src.props, values := dst.values + src.values, children := Else(dst.children, src.children),
                    tags := dst.tags + src.tags, names := Else(dst.names, src.names), min := Else(dst.min, src.min), max := Else(dst.max, src.max))
    case Property => d.(validations := dst.validations + src.validations)
    case Val => d.(validations := dst.validations + src.validations, min := Else(dst.min, src.min), max := Else(dst.max, src.max))
    case Children => d.(nodes := dst.nodes + src.nodes, names := Else(dst.names, src.names))
    case Tag => d.(nodes := dst.nodes + src.nodes, names := Else(dst.names, src.names))
  }

  lemma MergedKids(dst: Def, src: Def)
    requires dst.kind == src.kind
    ensures forall k :: k in Kids(dst) ==> k in Kids(Merged(dst, src))
    ensures forall k :: k in Kids(Merged(dst, src)) ==> k in Kids(dst) || k in Kids(src)
  {}

  // ----- which schemas can be resolved -----

  predicate Nested(init: seq<Def>, i: nat)
    requires i < |init|
  {
    forall k: nat :: k in Kids(init[i]) ==> i < k < |init|
  }

  /** As compiled, definitions nest: numbers grow downwards. */
  ghost predicate WellFormed(init: seq<Def>, defs: Option<Definitions>) {
    && (forall i: nat :: i < |init| ==> Nested(init, i))
    && (defs.Some? ==> forall kind :: Listed(init, defs.value, kind))
  }

  function Refs(init: seq<Def>): set<string> {
    set i | 0 <= i < |init| :: init[i].ref
  }

  predicate Silent(kind: Kind) { kind.Property? || kind.Val? || kind.Tag? }

  lemma FewerLeft(init: seq<Def>, seen: set<string>, i: nat)
    requires i < |init| && init[i].ref !in seen
    ensures |Refs(init) - (seen + {init[i].ref})| < |Refs(init) - seen|
  {
    var a, b := Refs(init) - (seen + {init[i].ref}), Refs(init) - seen;
    assert init[i].ref in b && init[i].ref !in a;
    assert a + {init[i].ref} <= b;
    Smaller(a, b, init[i].ref);
  }

  lemma Smaller<T>(a: set<T>, b: set<T>, x: T)
    requires a <= b && x in b && x !in a
    ensures |a| < |b|
  {
    assert a <= b - {x};
    Subset(a, b - {x});
  }

  lemma Subset<T>(a: set<T>, b: set<T>)
    requires a <= b
    ensures |a| <= |b|
    decreases |a|
  {
    if a != {} {
      var x :| x in a;
      Subset(a - {x}, b - {x});
    }
  }

  /**
   * Definition i can be resolved below a path on which the refs in seen were followed: every ref that is met names a
   * definition and is not yet on the path. Stated on the schema as compiled, before anything is merged.
   */
  ghost predicate Resolvable(init: seq<Def>, defs: Option<Definitions>, seen: set<string>, i: nat)
    requires WellFormed(init, defs) && i < |init|
    decreases |Refs(init) - seen|, |init| - i, 1
  {
    var d := init[i];
    assert Nested(init, i);
    if d.ref == "" then Silent(d.kind) || AllResolvable(init, defs, seen, i, Kids(d))
    else if defs.None? then Silent(d.kind)
    else if d.ref in seen then false
    else
      FewerLeft(init, seen, i);
      assert Listed(init, defs.value, d.kind);
      match Find(init, defs.value, d.kind, d.ref)
      case None => false
      case Some(t) =>
        && Resolvable(init, defs, seen + {d.ref}, t)
        && AllBelow(init, defs, seen + {d.ref}, Kids(d))
        && (d.kind.Tag? && init[t].ref == "" ==> AllBelow(init, defs, seen + {d.ref}, Kids(init[t])))
  }

  /** All of some definitions numbered above i. */
  ghost predicate AllResolvable(init: seq<Def>, defs: Option<Definitions>, seen: set<string>, i: nat, kids: seq<nat>)
    requires WellFormed(init, defs) && i < |init|
    decreases |Refs(init) - seen|, |init| - i, 0
  {
    forall k: nat :: k in kids && i < k < |init| ==> Resolvable(init, defs, seen, k)
  }

  /** All of some definitions. */
  ghost predicate AllBelow(init: seq<Def>, defs: Option<Definitions>, seen: set<string>, kids: seq<nat>)
    requires WellFormed(init, defs)
    decreases |Refs(init) - seen|, |init| + 1, 0
  {
    forall k: nat :: k in kids && k < |init| ==> Resolvable(init, defs, seen, k)
  }

  // ----- the path can only get in the way -----

  lemma {:induction false} ShorterPath(init: seq<Def>, defs: Option<Definitions>, seen: set<string>, longer: set<string>, i: nat)
    requires WellFormed(init, defs) && i < |init| && seen <= longer && Resolvable(init, defs, longer, i)
    ensures Resolvable(init, defs, seen, i)
    decreases |Refs(init) - longer|, |init| - i, 1
  {
    hide Find, Kids;
    var d := init[i];
    if d.ref == "" {
      if !Silent(d.kind) { ShorterPathEach(init, defs, seen, longer, i, Kids(d)); }
    } else if defs.Some? {
      FewerLeft(init, longer, i);
      assert Listed(init, defs.value, d.kind);
      var t := Find(init, defs.value, d.kind, d.ref).value;
      ShorterPathRef(init, defs, seen, longer, i, t);
    }
  }

  lemma {:induction false} ShorterPathRef(init: seq<Def>, defs: Option<Definitions>, seen: set<string>, longer: set<string>, i: nat, t: nat)
    requires WellFormed(init, defs) && i < |init| && seen <= longer && defs.Some? && init[i].ref !in longer && t < |init|
    requires var below := longer + {init[i].ref};
      && Resolvable(init, defs, below, t)
      && AllBelow(init, defs, below, Kids(init[i]))
      && (init[i].kind.Tag? && init[t].ref == "" ==> AllBelow(init, defs, below, Kids(init[t])))
    ensures var below := seen + {init[i].ref};
      && Resolvable(init, defs, below, t)
      && AllBelow(init, defs, below, Kids(init[i]))
      && (init[i].kind.Tag? && init[t].ref == "" ==> AllBelow(init, defs, below, Kids(init[t])))
    decreases |Refs(init) - longer|, |init| - i, 0
  {
    hide Kids, Resolvable, AllBelow;
    FewerLeft(init, longer, i);
    var a, b := seen + {init[i].ref}, longer + {init[i].ref};
    ShorterPath(init, defs, a, b, t);
    ShorterPathBelow(init, defs, a, b, Kids(init[i]));
    if init[i].kind.Tag? && init[t].ref == "" { ShorterPathBelow(init, defs, a, b, Kids(init[t])); }
  }

  lemma {:induction false} ShorterPathEach(init: seq<Def>, defs: Option<Definitions>, seen: set<string>, longer: set<string>, i: nat, kids: seq<nat>)
    requires WellFormed(init, defs) && i < |init| && seen <= longer && AllResolvable(init, defs, longer, i, kids)
    ensures AllResolvable(init, defs, seen, i, kids)
    decreases |Refs(init) - longer|, |init| - i, 0
  {
    hide Resolvable;
    forall k: nat | k in kids && i < k < |init| ensures Resolvable(init, defs, seen, k) {
      ShorterPath(init, defs, seen, longer, k);
    }
  }

  lemma {:induction false} ShorterPathBelow(init: seq<Def>, defs: Option<Definitions>, seen: set<string>, longer: set<string>, kids: seq<nat>)
    requires WellFormed(init, defs) && seen <= longer && AllBelow(init, defs, longer, kids)
    ensures AllBelow(init, defs, seen, kids)
    decreases |Refs(init) - longer|, |init| + 1, 0
  {
    hide Resolvable;
    forall k: nat | k in kids && k < |init| ensures Resolvable(init, defs, seen, k) {
      ShorterPath(init, defs, seen, longer, k);
    }
  }

  // ----- merging keeps what resolution depends on -----

  /**
   * The store cur may differ from the compiled one in definitions that have a ref: they may have taken over kids from
   * the definition they refer to.
   */
  ghost predicate Evolved(init: seq<Def>, defs: Option<Definitions>, cur: seq<Def>)
    requires WellFormed(init, defs)
  {
    |cur| == |init| && forall i: nat :: i < |init| ==> EvolvedAt(init, defs, cur, i)
  }

  ghost predicate EvolvedAt(init: seq<Def>, defs: Option<Definitions>, cur: seq<Def>, i: nat)
    requires WellFormed(init, defs) && |cur| == |init| && i < |init|
  {
    && cur[i].kind == init[i].kind && cur[i].ref == init[i].ref && cur[i].id == init[i].id && cur[i].name == init[i].name
    && (init[i].ref == "" ==> cur[i] == init[i])
    && (forall k: nat :: k in Kids(init[i]) ==> k in Kids(cur[i]))
    && (forall k: nat :: k in Kids(cur[i]) ==> k < |init| && (k in Kids(init[i]) || Inherited(init, defs, cur, i, k)))
  }

  ghost predicate Inherited(init: seq<Def>, defs: Option<Definitions>, cur: seq<Def>, i: nat, k: nat)
    requires WellFormed(init, defs) && |cur| == |init| && i < |init|
  {
    && defs.Some?
    && Listed(init, defs.value, init[i].kind)
    && var t := Find(init, defs.value, init[i].kind, init[i].ref);
    t.Some? && k in Kids(cur[t.value])
  }

  /** In a resolvable definition with a ref, all kids, inherited ones too, can be resolved below its ref. */
  lemma {:induction false} InheritedKidsResolvable(init: seq<Def>, defs: Option<Definitions>, cur: seq<Def>, seen: set<string>, i: nat)
    requires WellFormed(init, defs) && Evolved(init, defs, cur) && i < |init|
    requires init[i].ref != "" && defs.Some? && Resolvable(init, defs, seen, i)
    ensures AllBelow(init, defs, seen + {init[i].ref}, Kids(cur[i]))
    decreases |Refs(init) - seen|, 0
  {
    hide Kids, Find;
    var d := init[i];
    var below := seen + {d.ref};
    FewerLeft(init, seen, i);
    assert Listed(init, defs.value, d.kind);
    assert EvolvedAt(init, defs, cur, i);
    var t := Find(init, defs.value, d.kind, d.ref).value;
    KidsOfTarget(init, defs, cur, below, d.kind, t);
    hide Resolvable, EvolvedAt;
    forall k: nat | k in Kids(cur[i]) && k < |init| ensures Resolvable(init, defs, below, k) {
      KidIsOwnOrInherited(init, defs, cur, i, k);
    }
  }

  lemma KidIsOwnOrInherited(init: seq<Def>, defs: Option<Definitions>, cur: seq<Def>, i: nat, k: nat)
    requires WellFormed(init, defs) && Evolved(init, defs, cur) && i < |init| && k in Kids(cur[i])
    ensures k in Kids(init[i]) || Inherited(init, defs, cur, i, k)
  {
    assert EvolvedAt(init, defs, cur, i);
  }

  lemma {:induction false} KidsOfTarget(init: seq<Def>, defs: Option<Definitions>, cur: seq<Def>, below: set<string>, kind: Kind, t: nat)
    requires WellFormed(init, defs) && Evolved(init, defs, cur) && defs.Some? && t < |init| && init[t].kind == kind
    requires Resolvable(init, defs, below, t)
    requires (kind.Tag? && init[t].ref == "" ==> AllBelow(init, defs, below, Kids(init[t])))
    ensures AllBelow(init, defs, below, Kids(cur[t]))
    decreases |Refs(init) - below|, 1
  {
    assert EvolvedAt(init, defs, cur, t);
    assert Nested(init, t);
    if init[t].ref != "" {
      InheritedKidsResolvable(init, defs, cur, below, t);
      ShorterPathBelow(init, defs, below, below + {init[t].ref}, Kids(cur[t]));
    } else if !Silent(kind) {
      hide Kids;
      assert AllResolvable(init, defs, below, t, Kids(init[t]));
    }
  }

  /** Merging the target of a ref into its referrer keeps the store evolved. */
  lemma MergeEvolves(init: seq<Def>, defs: Option<Definitions>, cur: seq<Def>, i: nat, t: nat)
    requires WellFormed(init, defs) && Evolved(init, defs, cur) && i < |init| && init[i].ref != "" && defs.Some?
    requires Listed(init, defs.value, init[i].kind) && Find(init, defs.value, init[i].kind, init[i].ref) == Some(t)
    ensures Evolved(init, defs, cur[i := Merged(cur[i], cur[t])])
  {
    hide Find, Kids, Merged;
    var next := cur[i := Merged(cur[i], cur[t])];
    assert EvolvedAt(init, defs, cur, i) && EvolvedAt(init, defs, cur, t);
    MergedKids(cur[i], cur[t]);
    forall j: nat | j < |init| ensures EvolvedAt(init, defs, next, j) {
      assert EvolvedAt(init, defs, cur, j);
      forall k: nat | k in Kids(next[j]) ensures k < |init| && (k in Kids(init[j]) || Inherited(init, defs, next, j, k)) {
        if k !in Kids(cur[j]) {
          assert j == i && k in Kids(cur[t]);
          assert k in Kids(next[t]);
        } else if k !in Kids(init[j]) {
          assert Inherited(init, defs, cur, j, k);
        }
      }
    }
  }

  lemma CompiledIsEvolved(init: seq<Def>, defs: Option<Definitions>)
    requires WellFormed(init, defs)
    ensures Evolved(init, defs, init)
  {
    forall i: nat | i < |init| ensures EvolvedAt(init, defs, init, i) {
      assert Nested(init, i);
    }
  }

  /** The verdict on a definition with a ref, once its target can be resolved and is merged into it. */
  lemma RefVerdict(init: seq<Def>, defs: Option<Definitions>, cur: seq<Def>, seen: set<string>, i: nat, t: nat)
    requires WellFormed(init, defs) && Evolved(init, defs, cur) && i < |init| && init[i].ref != "" && defs.Some?
    requires init[i].ref !in seen
    requires Listed(init, defs.value, init[i].kind) && Find(init, defs.value, init[i].kind, init[i].ref) == Some(t)
    requires Resolvable(init, defs, seen + {init[i].ref}, t)
    ensures var next := cur[i := Merged(cur[i], cur[t])];
      && Evolved(init, defs, next)
      && (forall k: nat :: k in Kids(next[i]) ==> k < |init|)
      && (Resolvable(init, defs, seen, i) <==> forall k: nat :: k in Kids(next[i]) && k < |init| ==> Resolvable(init, defs, seen + {init[i].ref}, k))
  {
    hide Kids, Find, Merged;
    var next := cur[i := Merged(cur[i], cur[t])];
    var below := seen + {init[i].ref};
    MergeEvolves(init, defs, cur, i, t);
    assert EvolvedAt(init, defs, next, i) && EvolvedAt(init, defs, cur, t);
    EachIsBelow(init, defs, below, Kids(next[i]));
    if Resolvable(init, defs, seen, i) {
      InheritedKidsResolvable(init, defs, next, seen, i);
    }
    if AllBelow(init, defs, below, Kids(next[i])) {
      SubsetBelow(init, defs, below, Kids(init[i]), Kids(next[i]));
      if init[i].kind.Tag? {
        assert EvolvedAt(init, defs, cur, i);
        MergedTag(cur[i], cur[t]);
        SubsetBelow(init, defs, below, Kids(init[t]), Kids(next[i]));
      }
    }
  }

  lemma MergedTag(dst: Def, src: Def)
    requires dst.kind.Tag? && src.kind.Tag?
    ensures forall k :: k in Kids(src) ==> k in Kids(Merged(dst, src))
  {}

  lemma SubsetBelow(init: seq<Def>, defs: Option<Definitions>, seen: set<string>, some: seq<nat>, all: seq<nat>)
    requires WellFormed(init, defs) && AllBelow(init, defs, seen, all) && forall k: nat :: k in some ==> k in all
    ensures AllBelow(init, defs, seen, some)
  {
    hide Resolvable;
  }

  // ----- what merging leaves -----

  /** newer is older after merging: what older says is still there, first in every list, and nothing it says is overruled. */
  predicate Grew(older: Def, newer: Def) {
    && newer.kind == older.kind && newer.ref == older.ref && newer.id == older.id && newer.name == older.name
    && older.props <= newer.props && older.values <= newer.values && older.tags <= newer.tags && older.nodes <= newer.nodes
    && older.validations <= newer.validations
    && (older.description != "" ==> newer.description == older.description)
    && (older.children.Some? ==> newer.children == older.children) && (older.names.Some? ==> newer.names == older.names)
    && (older.min.Some? ==> newer.min == older.min) && (older.max.Some? ==> newer.max == older.max)
  }

  predicate AllGrew(older: seq<Def>, newer: seq<Def>) {
    |older| == |newer| && forall j :: 0 <= j < |older| ==> Grew(older[j], newer[j])
  }

  lemma GrewOn(a: Def, b: Def, c: Def)
    requires Grew(a, b) && Grew(b, c)
    ensures Grew(a, c)
  {}

  lemma AllGrewOn(a: seq<Def>, b: seq<Def>, c: seq<Def>)
    requires AllGrew(a, b) && AllGrew(b, c)
    ensures AllGrew(a, c)
  {
    hide Grew;
    forall j | 0 <= j < |a| ensures Grew(a[j], c[j]) { GrewOn(a[j], b[j], c[j]); }
  }

  lemma NothingGrew(a: seq<Def>)
    ensures AllGrew(a, a)
  {}

  lemma MergedGrew(dst: Def, src: Def)
    ensures Grew(dst, Merged(dst, src))
  {}

  /** Merging lets a definition grow, and no other. */
  lemma MergeGrows(init: seq<Def>, cur: seq<Def>, i: nat, t: nat)
    requires AllGrew(init, cur) && i < |cur| && t < |cur|
    ensures var next := cur[i := Merged(cur[i], cur[t])]; AllGrew(cur, next) && AllGrew(init, next)
  {
    hide Grew, Merged;
    var next := cur[i := Merged(cur[i], cur[t])];
    MergedGrew(cur[i], cur[t]);
    NothingGrew(cur);
    forall j | 0 <= j < |cur| ensures Grew(cur[j], next[j]) {}
    AllGrewOn(init, cur, next);
  }

  // ----- what a definition takes over -----

  /** Behind the definition's own list stands everything that the target lists, and nothing else. */
  ghost predicate Extends(own: seq<nat>, target: seq<nat>, now: seq<nat>) {
    own <= now && forall x :: x in now[|own|..] <==> x in target
  }

  /** What the definition says itself, and otherwise what the target says. */
  ghost predicate Chosen<T>(own: Option<T>, target: Option<T>, now: Option<T>) {
    now == if own.Some? then own else target
  }

  /** now is the definition own after it has taken over from target what definitions of its kind take over, and nothing else. */
  ghost predicate Holds(own: Def, target: Def, now: Def) {
    && now.kind == own.kind && now.ref == own.ref && now.id == own.id && now.name == own.name
    && now.description == (if own.description != "" then own.description else target.description)
    && match own.kind
       case Node =>
         && Extends(own.props, target.props, now.props) && Extends(own.values, target.values, now.values)
         && Extends(own.tags, target.tags, now.tags) && Chosen(own.children, target.children, now.children)
         && Chosen(own.names, target.names, now.names) && Chosen(own.min, target.min, now.min) && Chosen(own.max, target.max, now.max)
         && now.validations == own.validations && now.nodes == own.nodes
       case Property =>
         && Extends(own.validations, target.validations, now.validations)
         && now.props == own.props && now.values == own.values && now.tags == own.tags && now.nodes == own.nodes
         && now.children == own.children && now.names == own.names && now.min == own.min && now.max == own.max
       case Val =>
         && Extends(own.validations, target.validations, now.validations)
         && Chosen(own.min, target.min, now.min) && Chosen(own.max, target.max, now.max)
         && now.props == own.props && now.values == own.values && now.tags == own.tags && now.nodes == own.nodes
         && now.children == own.children && now.names == own.names
       case _ =>
         && Extends(own.nodes, target.nodes, now.nodes) && Chosen(own.names, target.names, now.names)
         && now.props == own.props && now.values == own.values && now.tags == own.tags && now.validations == own.validations
         && now.children == own.children && now.min == own.min && now.max == own.max
  }

  /** The same before everything has been taken over. */
  ghost predicate PartlyExtends(own: seq<nat>, target: seq<nat>, now: seq<nat>) {
    own <= now && forall x :: x in now[|own|..] ==> x in target
  }

  ghost predicate PartlyChosen<T>(own: Option<T>, target: Option<T>, now: Option<T>) {
    now == own || (own.None? && now == target)
  }

  ghost predicate PartlyHolds(own: Def, target: Def, now: Def) {
    && now.kind == own.kind && now.ref == own.ref && now.id == own.id && now.name == own.name
    && (now.description == own.description || (own.description == "" && now.description == target.description))
    && match own.kind
       case Node =>
         && PartlyExtends(own.props, target.props, now.props) && PartlyExtends(own.values, target.values, now.values)
         && PartlyExtends(own.tags, target.tags, now.tags) && PartlyChosen(own.children, target.children, now.children)
         && PartlyChosen(own.names, target.names, now.names) && PartlyChosen(own.min, target.min, now.min)
         && PartlyChosen(own.max, target.max, now.max) && now.validations == own.validations && now.nodes == own.nodes
       case Property =>
         && PartlyExtends(own.validations, target.validations, now.validations)
         && now.props == own.props && now.values == own.values && now.tags == own.tags && now.nodes == own.nodes
         && now.children == own.children && now.names == own.names && now.min == own.min && now.max == own.max
       case Val =>
         && PartlyExtends(own.validations, target.validations, now.validations)
         && PartlyChosen(own.min, target.min, now.min) && PartlyChosen(own.max, target.max, now.max)
         && now.props == own.props && now.values == own.values && now.tags == own.tags && now.nodes == own.nodes
         && now.children == own.children && now.names == own.names
       case _ =>
         && PartlyExtends(own.nodes, target.nodes, now.nodes) && PartlyChosen(own.names, target.names, now.names)
         && now.props == own.props && now.values == own.values && now.tags == own.tags && now.validations == own.validations
         && now.children == own.children && now.min == own.min && now.max == own.max
  }

  /** Two definitions that list and say the same, in whatever order and however often. */
  ghost predicate SaysTheSame(a: Def, b: Def) {
    && a.description == b.description && a.children == b.children && a.names == b.names && a.min == b.min && a.max == b.max
    && (forall x :: x in a.props <==> x in b.props) && (forall x :: x in a.values <==> x in b.values)
    && (forall x :: x in a.tags <==> x in b.tags) && (forall x :: x in a.nodes <==> x in b.nodes)
    && (forall x :: x in a.validations <==> x in b.validations)
  }

  lemma ListMerged(own: seq<nat>, target: seq<nat>, now: seq<nat>)
    requires PartlyExtends(own, target, now)
    ensures Extends(own, target, now + target)
  {
    assert (now + target)[|own|..] == now[|own|..] + target;
  }

  /** Merging the target into a definition that holds part of it makes it hold all of it. */
  lemma MergedHolds(own: Def, target: Def, now: Def)
    requires PartlyHolds(own, target, now) && target.kind == own.kind
    ensures Holds(own, target, Merged(now, target))
  {
    hide PartlyExtends, Extends;
    match own.kind
    case Node =>
      ListMerged(own.props, target.props, now.props);
      ListMerged(own.values, target.values, now.values);
      ListMerged(own.tags, target.tags, now.tags);
    case Property => ListMerged(own.validations, target.validations, now.validations);
    case Val => ListMerged(own.validations, target.validations, now.validations);
    case _ => ListMerged(own.nodes, target.nodes, now.nodes);
  }

  lemma ListAgain(own: seq<nat>, target: seq<nat>, now: seq<nat>)
    requires Extends(own, target, now)
    ensures PartlyExtends(own, target, now) && forall x :: x in now + target <==> x in now
  {
    forall x | x in target ensures x in now { assert x in now[|own|..]; }
  }

  /** Merging it once more changes nothing but the lists, and these only in how often they name the same. */
  lemma MergedAgain(own: Def, target: Def, now: Def)
    requires Holds(own, target, now) && target.kind == own.kind
    ensures SaysTheSame(now, Merged(now, target))
  {
    hide Extends;
    match own.kind
    case Node =>
      ListAgain(own.props, target.props, now.props);
      ListAgain(own.values, target.values, now.values);
      ListAgain(own.tags, target.tags, now.tags);
    case Property => ListAgain(own.validations, target.validations, now.validations);
    case Val => ListAgain(own.validations, target.validations, now.validations);
    case _ => ListAgain(own.nodes, target.nodes, now.nodes);
  }

  lemma HoldsTheSame(own: Def, target: Def, next: Def, now: Def)
    requires Holds(own, target, now) && SaysTheSame(target, next)
    ensures Holds(own, next, now)
  {}

  lemma HoldsPartly(own: Def, target: Def, now: Def)
    requires Holds(own, target, now)
    ensures PartlyHolds(own, target, now)
  {}

  /** A target that grows still has all that was taken over from it. */
  lemma PartlyHoldsStill(own: Def, target: Def, next: Def, now: Def)
    requires PartlyHolds(own, target, now) && Grew(target, next)
    ensures PartlyHolds(own, next, now)
  {
    forall l: seq<nat>, m: seq<nat>, x | l <= m && x in l ensures x in m {}
  }

  /** The definition that i refers to, if there is one. */
  ghost function Target(init: seq<Def>, defs: Option<Definitions>, i: nat): (t: Option<nat>)
    requires WellFormed(init, defs) && i < |init|
    ensures t.Some? ==> t.value < |init| && init[t.value].kind == init[i].kind
  {
    if init[i].ref == "" || defs.None? then None
    else
      assert Listed(init, defs.value, init[i].kind);
      Find(init, defs.value, init[i].kind, init[i].ref)
  }

  /** Definition i, if it has a target, holds all that the target says. */
  ghost predicate TakenOver(init: seq<Def>, defs: Option<Definitions>, cur: seq<Def>, i: nat)
    requires WellFormed(init, defs) && |cur| == |init| && i < |init|
  {
    var t := Target(init, defs, i);
    if t.Some? then Holds(init[i], cur[t.value], cur[i]) else cur[i] == init[i]
  }

  ghost predicate PartlyTaken(init: seq<Def>, defs: Option<Definitions>, cur: seq<Def>, i: nat)
    requires WellFormed(init, defs) && |cur| == |init| && i < |init|
  {
    var t := Target(init, defs, i);
    if t.Some? then PartlyHolds(init[i], cur[t.value], cur[i]) else cur[i] == init[i]
  }

  ghost predicate AllPartlyTaken(init: seq<Def>, defs: Option<Definitions>, cur: seq<Def>)
    requires WellFormed(init, defs) && |cur| == |init|
  {
    forall i: nat :: i < |init| ==> PartlyTaken(init, defs, cur, i)
  }

  /** All of these hold all that their targets say, and their targets are among them. */
  ghost predicate AllTakenOver(init: seq<Def>, defs: Option<Definitions>, cur: seq<Def>, taken: set<nat>)
    requires WellFormed(init, defs) && |cur| == |init|
  {
    forall i: nat :: i in taken ==> i < |init| && TakenOver(init, defs, cur, i) && (Target(init, defs, i).Some? ==> Target(init, defs, i).value in taken)
  }

  lemma NothingTaken(init: seq<Def>, defs: Option<Definitions>)
    requires WellFormed(init, defs)
    ensures AllPartlyTaken(init, defs, init)
  {
    forall i: nat | i < |init| ensures PartlyTaken(init, defs, init, i) {}
  }

  /** A merge: the referrer now holds all that its target says, and so does everything that did so before. */
  lemma MergeTakesOver(init: seq<Def>, defs: Option<Definitions>, cur: seq<Def>, taken: set<nat>, i: nat, t: nat)
    requires WellFormed(init, defs) && AllGrew(init, cur) && i < |init| && Target(init, defs, i) == Some(t) && t != i && t in taken
    requires AllPartlyTaken(init, defs, cur) && AllTakenOver(init, defs, cur, taken)
    ensures var next := cur[i := Merged(cur[i], cur[t])];
      AllPartlyTaken(init, defs, next) && AllTakenOver(init, defs, next, taken + {i})
  {
    hide Grew, Target, Merged, Holds, PartlyHolds, SaysTheSame;
    var next := cur[i := Merged(cur[i], cur[t])];
    SameKinds(init, cur, i, t);
    assert PartlyTaken(init, defs, cur, i);
    MergedHolds(init[i], cur[t], cur[i]);
    HoldsPartly(init[i], cur[t], next[i]);
    MergedGrew(cur[i], cur[t]);
    forall j: nat | j < |init| && j != i ensures PartlyTaken(init, defs, next, j) {
      assert PartlyTaken(init, defs, cur, j);
      if Target(init, defs, j) == Some(i) { PartlyHoldsStill(init[j], cur[i], next[i], cur[j]); }
    }
    forall j: nat | j in taken && j != i ensures TakenOver(init, defs, next, j) {
      assert TakenOver(init, defs, cur, j);
      if Target(init, defs, j) == Some(i) {
        assert TakenOver(init, defs, cur, i);
        MergedAgain(init[i], cur[t], cur[i]);
        HoldsTheSame(init[j], cur[i], next[i], cur[j]);
      }
    }
  }

  lemma SameKinds(init: seq<Def>, cur: seq<Def>, i: nat, t: nat)
    requires AllGrew(init, cur) && i < |init| && t < |init| && init[t].kind == init[i].kind
    ensures cur[i].kind == cur[t].kind == init[i].kind
  {
    assert Grew(init[i], cur[i]) && Grew(init[t], cur[t]);
  }

  // ----- what resolution reaches -----

  /** What resolution goes on to from a definition in the set is in the set: the target of its ref, and the definitions nested in it. */
  ghost predicate Closed(init: seq<Def>, defs: Option<Definitions>, settled: set<nat>)
    requires WellFormed(init, defs)
  {
    forall i: nat :: i in settled ==> i < |init| && Settles(init, defs, settled, i)
  }

  ghost predicate Settles(init: seq<Def>, defs: Option<Definitions>, settled: set<nat>, i: nat)
    requires WellFormed(init, defs) && i < |init|
  {
    var d := init[i];
    if d.ref == "" then !Silent(d.kind) ==> forall k: nat :: k in Kids(d) ==> k in settled
    else defs.Some? ==>
      var t := Target(init, defs, i);
      && t.Some? && t.value in settled
      && (forall k: nat :: k in Kids(d) ==> k in settled)
      && (d.kind.Tag? && init[t.value].ref == "" ==> forall k: nat :: k in Kids(init[t.value]) ==> k in settled)
  }

  lemma SettleOne(init: seq<Def>, defs: Option<Definitions>, settled: set<nat>, i: nat)
    requires WellFormed(init, defs) && Closed(init, defs, settled) && i < |init| && Settles(init, defs, settled, i)
    ensures Closed(init, defs, settled + {i})
  {
    hide Target;
    forall j: nat | j in settled + {i} ensures j < |init| && Settles(init, defs, settled + {i}, j) {
      assert Settles(init, defs, settled, j);
    }
  }

  /** What merging leaves of a definition without a target. */
  lemma NoTarget(init: seq<Def>, defs: Option<Definitions>, cur: seq<Def>, taken: set<nat>, i: nat)
    requires WellFormed(init, defs) && |cur| == |init| && i < |init| && AllPartlyTaken(init, defs, cur) && AllTakenOver(init, defs, cur, taken)
    requires init[i].ref == "" || defs.None?
    ensures AllTakenOver(init, defs, cur, taken + {i}) && cur[i] == init[i]
  {
    assert PartlyTaken(init, defs, cur, i);
  }

  lemma KidsVerdict(init: seq<Def>, defs: Option<Definitions>, seen: set<string>, i: nat)
    requires WellFormed(init, defs) && i < |init| && init[i].ref == "" && !Silent(init[i].kind)
    ensures Resolvable(init, defs, seen, i) <==> forall k: nat :: k in Kids(init[i]) && k < |init| ==> Resolvable(init, defs, seen, k)
  {
    assert Nested(init, i);
    assert Resolvable(init, defs, seen, i) <==> AllResolvable(init, defs, seen, i, Kids(init[i]));
  }

  lemma EachIsBelow(init: seq<Def>, defs: Option<Definitions>, seen: set<string>, kids: seq<nat>)
    requires WellFormed(init, defs)
    ensures AllBelow(init, defs, seen, kids) <==> forall k: nat :: k in kids && k < |init| ==> Resolvable(init, defs, seen, k)
  {
    hide Resolvable;
  }

  /** A ref that is on the path already, or that names nothing. */
  lemma RefRefused(init: seq<Def>, defs: Option<Definitions>, seen: set<string>, i: nat)
    requires WellFormed(init, defs) && i < |init| && init[i].ref != "" && (Silent(init[i].kind) ==> defs.Some?)
    requires defs.Some? ==> Listed(init, defs.value, init[i].kind)
    requires init[i].ref in seen || defs.None? || Find(init, defs.value, init[i].kind, init[i].ref).None?
    ensures !Resolvable(init, defs, seen, i)
  {}

  lemma TargetRefused(init: seq<Def>, defs: Option<Definitions>, seen: set<string>, i: nat, t: nat)
    requires WellFormed(init, defs) && i < |init| && init[i].ref != "" && defs.Some? && init[i].ref !in seen
    requires Listed(init, defs.value, init[i].kind) && Find(init, defs.value, init[i].kind, init[i].ref) == Some(t)
    requires !Resolvable(init, defs, seen + {init[i].ref}, t)
    ensures !Resolvable(init, defs, seen, i)
  {}

  lemma {:induction false} SameFirst(init: seq<Def>, defs: Option<Definitions>, cur: seq<Def>, candidates: seq<nat>, r: Ref)
    requires WellFormed(init, defs) && Evolved(init, defs, cur) && forall k: nat :: k in candidates ==> k < |init|
    ensures First(cur, candidates, r) == First(init, candidates, r)
  {
    if candidates != [] {
      assert candidates[0] in candidates && forall k: nat :: k in candidates[1..] ==> k in candidates;
      assert EvolvedAt(init, defs, cur, candidates[0]);
      SameFirst(init, defs, cur, candidates[1..], r);
    }
  }

  /** Merging does not change what a ref stands for. */
  lemma SameAnswers(init: seq<Def>, defs: Option<Definitions>, cur: seq<Def>, kind: Kind, ref: string)
    requires WellFormed(init, defs) && Evolved(init, defs, cur) && defs.Some? && Listed(init, defs.value, kind)
    ensures Listed(cur, defs.value, kind) && Find(cur, defs.value, kind, ref) == Find(init, defs.value, kind, ref)
  {
    forall k: nat | k in defs.value.Of(kind) ensures k < |cur| && cur[k].kind == kind {
      assert EvolvedAt(init, defs, cur, k);
    }
    if ParseRef(ref).Some? { SameFirst(init, defs, cur, defs.value.Of(kind), ParseRef(ref).value); }
  }

  /** A definition whose ref leads back to the same ref is refused, whatever lies in between: here, itself. */
  lemma SelfReferenceIsRefused(init: seq<Def>, defs: Option<Definitions>, seen: set<string>, i: nat)
    requires WellFormed(init, defs) && i < |init| && init[i].ref != "" && defs.Some?
    requires Listed(init, defs.value, init[i].kind)
    requires Find(init, defs.value, init[i].kind, init[i].ref) == Some(i)
    ensures !Resolvable(init, defs, seen, i)
  {}

  /**
   * The path holds refs, not definitions: a nested definition with the same ref as its owner is refused as circular,
   * even when, being of another kind, it refers to something else that has no refs at all.
   */
  lemma SameRefBelowIsRefused(init: seq<Def>, defs: Option<Definitions>, seen: set<string>, i: nat, k: nat)
    requires WellFormed(init, defs) && i < |init| && k in Kids(init[i]) && k < |init|
    requires init[i].ref != "" && init[k].ref == init[i].ref && defs.Some?
    ensures !Resolvable(init, defs, seen, i)
  {
    if init[i].ref !in seen {
      FewerLeft(init, seen, i);
      assert !Resolvable(init, defs, seen + {init[i].ref}, k);
    }
  }

  lemma SameHead(init: seq<Def>, defs: Option<Definitions>, cur: seq<Def>, i: nat)
    requires WellFormed(init, defs) && Evolved(init, defs, cur) && i < |init|
    ensures |cur| == |init| && cur[i].kind == init[i].kind && cur[i].ref == init[i].ref
    ensures defs.Some? ==> Listed(init, defs.value, init[i].kind)
  {
    assert EvolvedAt(init, defs, cur, i);
  }

  /** A target with the same ref text is on the path already. */
  lemma OnPathIsRefused(init: seq<Def>, defs: Option<Definitions>, seen: set<string>, i: nat, t: nat)
    requires WellFormed(init, defs) && i < |init| && t < |init| && init[i].ref != "" && init[i].ref in seen && defs.Some?
    requires Resolvable(init, defs, seen, t)
    ensures t != i
  {}

  /** All that resolution goes on to from a definition with a target is nested in the merged definition. */
  lemma MergedReaches(init: seq<Def>, defs: Option<Definitions>, cur: seq<Def>, i: nat, t: nat)
    requires WellFormed(init, defs) && Evolved(init, defs, cur) && i < |init| && Target(init, defs, i) == Some(t)
    ensures var next := cur[i := Merged(cur[i], cur[t])];
      && (forall k: nat :: k in Kids(init[i]) ==> k in Kids(next[i]))
      && (init[i].kind.Tag? ==> forall k: nat :: k in Kids(init[t]) ==> k in Kids(next[i]))
  {
    hide Target, Merged, Kids;
    assert EvolvedAt(init, defs, cur, i) && EvolvedAt(init, defs, cur, t);
    MergedKids(cur[i], cur[t]);
    if init[i].kind.Tag? { MergedTag(cur[i], cur[t]); }
  }

  /** All that is known of a store in which the target t has been merged into i. */
  lemma MergeFacts(init: seq<Def>, defs: Option<Definitions>, cur: seq<Def>, taken: set<nat>, seen: set<string>, i: nat, t: nat)
    requires WellFormed(init, defs) && Evolved(init, defs, cur) && AllGrew(init, cur) && i < |init| && init[i].ref != "" && defs.Some?
    requires Listed(init, defs.value, init[i].kind) && Find(init, defs.value, init[i].kind, init[i].ref) == Some(t)
    requires init[i].ref !in seen && Resolvable(init, defs, seen + {init[i].ref}, t) && t in taken
    requires AllPartlyTaken(init, defs, cur) && AllTakenOver(init, defs, cur, taken)
    ensures Target(init, defs, i) == Some(t)
    ensures var next := cur[i := Merged(cur[i], cur[t])];
      && Evolved(init, defs, next) && AllGrew(init, next) && AllGrew(cur, next)
      && AllPartlyTaken(init, defs, next) && AllTakenOver(init, defs, next, taken + {i})
      && (forall k: nat :: k in Kids(next[i]) ==> k < |init|)
      && (Resolvable(init, defs, seen, i) <==> forall k: nat :: k in Kids(next[i]) && k < |init| ==> Resolvable(init, defs, seen + {init[i].ref}, k))
      && (forall k: nat :: k in Kids(init[i]) ==> k in Kids(next[i]))
      && (init[i].kind.Tag? ==> forall k: nat :: k in Kids(init[t]) ==> k in Kids(next[i]))
  {
    OnPathIsRefused(init, defs, seen + {init[i].ref}, i, t);
    assert Target(init, defs, i) == Some(t);
    hide *;
    RefVerdict(init, defs, cur, seen, i, t);
    MergeGrows(init, cur, i, t);
    MergeTakesOver(init, defs, cur, taken, i, t);
    MergedReaches(init, defs, cur, i, t);
  }

  lemma SettlesMerged(init: seq<Def>, defs: Option<Definitions>, cur: seq<Def>, settled: set<nat>, i: nat, t: nat)
    requires WellFormed(init, defs) && |cur| == |init| && i < |init| && Target(init, defs, i) == Some(t) && t in settled
    requires init[i].ref != "" && forall k: nat :: k in Kids(cur[i]) ==> k in settled
    requires (forall k: nat :: k in Kids(init[i]) ==> k in Kids(cur[i])) && (init[i].kind.Tag? ==> forall k: nat :: k in Kids(init[t]) ==> k in Kids(cur[i]))
    ensures Settles(init, defs, settled, i)
  {
    hide Target;
  }

  class Resolver {
    /** The schema as compiled. */
    ghost const init: seq<Def>
    const defs: Option<Definitions>
    var store: seq<Def>
    var visited: set<string>
    /** Definitions that have been merged with their targets, and those whose resolution has come to its end. */
    ghost var taken: set<nat>
    ghost var settled: set<nat>

    ghost predicate Valid()
      reads this
    {
      && |store| == |init| && WellFormed(init, defs) && Evolved(init, defs, store) && AllGrew(init, store)
      && Merging() && settled <= taken && Closed(init, defs, settled)
    }

    ghost predicate Merging()
      requires |store| == |init| && WellFormed(init, defs)
      reads `store, `taken
    {
      AllPartlyTaken(init, defs, store) && AllTakenOver(init, defs, store, taken)
    }

    constructor (compiled: seq<Def>, definitions: Option<Definitions>)
      requires WellFormed(compiled, definitions)
      ensures Valid() && init == store == compiled && defs == definitions && visited == {} && settled == {}
    {
      init := compiled;
      defs := definitions;
      store := compiled;
      visited := {};
      taken, settled := {}, {};
      new;
      CompiledIsEvolved(compiled, definitions);
      NothingGrew(compiled);
      NothingTaken(compiled, definitions);
    }

    /** The definition that a ref stands for, looked up in the store as it is now. */
    method FindDef(kind: Kind, ref: string) returns (t: Option<nat>)
      requires Valid()
      ensures defs.None? ==> t.None?
      ensures defs.Some? ==> Listed(init, defs.value, kind) && t == Find(init, defs.value, kind, ref)
    {
      if defs.None? { return None; }
      assert Listed(init, defs.value, kind);
      SameAnswers(init, defs, store, kind, ref);
      t := Find(store, defs.value, kind, ref);
    }

    /** The dispatch that the five resolvers do by calling each other. */
    method Resolve(i: nat) returns (ok: bool)
      requires Valid() && i < |init|
      modifies this
      ensures Valid() && visited == old(visited)
      ensures ok <==> Resolvable(init, defs, old(visited), i)
      ensures AllGrew(old(store), store) && old(settled) <= settled && old(taken) <= taken
      ensures ok ==> i in settled && TakenOver(init, defs, store, i)
      decreases |Refs(init) - visited|, |init| - i, 3
    {
      assert EvolvedAt(init, defs, store, i);
      hide Resolvable, Evolved, EvolvedAt, Merging, Closed, TakenOver;
      match store[i].kind
      case Node => ok := ResolveDescending(i);
      case Children => ok := ResolveDescending(i);
      case Property => ok := ResolveQuietly(i);
      case Val => ok := ResolveQuietly(i);
      case Tag => ok := ResolveQuietly(i);
    }

    /** resolveNodeRef and resolveChildrenRef: follow the ref if there is one, then descend into all kids. */
    method ResolveDescending(i: nat) returns (ok: bool)
      requires Valid() && i < |init| && !Silent(init[i].kind)
      modifies this
      ensures Valid() && visited == old(visited)
      ensures ok <==> Resolvable(init, defs, old(visited), i)
      ensures AllGrew(old(store), store) && old(settled) <= settled && old(taken) <= taken
      ensures ok ==> i in settled && TakenOver(init, defs, store, i)
      decreases |Refs(init) - visited|, |init| - i, 2
    {
      assert EvolvedAt(init, defs, store, i) && Nested(init, i);
      hide Merging, Closed;
      if store[i].ref != "" {
        ok := ResolveRef(i);
      } else {
        hide AllGrew;
        ok := ResolveEach(Kids(store[i]), i + 1);
        KidsVerdict(init, defs, visited, i);
        if ok {
          assert Settles(init, defs, settled, i);
          SettlePlain(i);
          SettledIsTaken(i);
        }
      }
    }

    lemma SettledIsTaken(i: nat)
      requires Valid() && i in settled
      ensures i < |init| && TakenOver(init, defs, store, i)
    {}

    /** A definition without a target counts as resolved when what is nested in it does. */
    ghost method SettlePlain(i: nat)
      requires Valid() && i < |init| && (init[i].ref == "" || defs.None?) && Settles(init, defs, settled, i)
      modifies `taken, `settled
      ensures Valid() && settled == old(settled) + {i} && taken == old(taken) + {i}
    {
      hide Evolved, AllGrew, AllPartlyTaken, AllTakenOver, Closed, Settles;
      NoTarget(init, defs, store, taken, i);
      SettleOne(init, defs, settled, i);
      taken, settled := taken + {i}, settled + {i};
    }

    /** mergeNodeDef, mergePropDef, mergeValueDef, mergeChildrenDef and mergeTagDef: field by field. */
    method Merge(i: nat, t: nat)
      requires i < |store| && t < |store|
      modifies `store
      ensures store == old(store)[i := Merged(old(store)[i], old(store)[t])]
    {
      var dst, src := store[i], store[t];
      if dst.description == "" {
        dst := dst.(description := src.description);
      }
      match dst.kind {
        case Node =>
          dst := dst.(props := dst.props + src.props, values := dst.values + src.values);
          if dst.children.None? { dst := dst.(children := src.children); }
          dst := dst.(tags := dst.tags + src.tags);
          if dst.names.None? { dst := dst.(names := src.names); }
          if dst.min.None? { dst := dst.(min := src.min); }
          if dst.max.None? { dst := dst.(max := src.max); }
        case Property =>
          dst := dst.(validations := dst.validations + src.validations);
        case Val =>
          dst := dst.(validations := dst.validations + src.validations);
          if dst.min.None? { dst := dst.(min := src.min); }
          if dst.max.None? { dst := dst.(max := src.max); }
        case _ =>
          dst := dst.(nodes := dst.nodes + src.nodes);
          if dst.names.None? { dst := dst.(names := src.names); }
      }
      store := store[i := dst];
    }

    /** Follows the ref of i: it must be new on the path, name a definition, and lead on without an error. */
    method ResolveRef(i: nat) returns (ok: bool)
      requires Valid() && i < |init| && init[i].ref != "" && (Silent(init[i].kind) ==> defs.Some?)
      modifies this
      ensures Valid() && visited == old(visited)
      ensures ok <==> Resolvable(init, defs, old(visited), i)
      ensures AllGrew(old(store), store) && old(settled) <= settled && old(taken) <= taken
      ensures ok ==> i in settled && TakenOver(init, defs, store, i)
      decreases |Refs(init) - visited|, |init| - i, 1
    {
      hide Resolvable, Evolved, EvolvedAt, AllGrew, Find, WellFormed, Grew, Merged, Merging, Closed, Kids, Listed, Target, TakenOver;
      ghost var seen, before := visited, store;
      NothingGrew(store);
      SameHead(init, defs, store, i);
      var kind, ref := store[i].kind, store[i].ref;
      if ref in visited {
        RefRefused(init, defs, seen, i);
        return false;
      }
      FewerLeft(init, seen, i);
      visited := visited + {ref};
      var t := FindDef(kind, ref);
      if t.None? {
        RefRefused(init, defs, seen, i);
        ok := false;
      } else {
        ok := Resolve(t.value);
        ghost var s1 := store;
        if !ok {
          TargetRefused(init, defs, seen, i, t.value);
        } else {
          ok := MergeAndDescend(i, t.value, seen);
          AllGrewOn(before, s1, store);
        }
      }
      visited := visited - {ref};
      assert visited == seen;
    }

    /** The resolved target t is merged into i, and the kids of i, inherited ones too, are resolved. */
    method MergeAndDescend(i: nat, t: nat, ghost seen: set<string>) returns (ok: bool)
      requires Valid() && i < |init| && init[i].ref != "" && defs.Some? && init[i].ref !in seen
      requires visited == seen + {init[i].ref}
      requires Listed(init, defs.value, init[i].kind) && Find(init, defs.value, init[i].kind, init[i].ref) == Some(t)
      requires Resolvable(init, defs, visited, t) && t in settled
      modifies this
      ensures Valid() && visited == old(visited)
      ensures ok <==> Resolvable(init, defs, seen, i)
      ensures AllGrew(old(store), store) && old(settled) <= settled && old(taken) <= taken
      ensures ok ==> i in settled && TakenOver(init, defs, store, i)
      decreases |Refs(init) - visited|, |init| + 1, 0
    {
      hide Resolvable, Evolved, EvolvedAt, AllGrew, Find, Listed, Closed, Merging, Settles, TakenOver;
      ghost var s1 := store;
      MergeTarget(i, t, seen);
      ghost var s2 := store;
      ok := ResolveEach(Kids(store[i]), 0);
      AllGrewOn(s1, s2, store);
      if ok {
        SettlesMerged(init, defs, s2, settled, i, t);
        SettleOne(init, defs, settled, i);
        settled := settled + {i};
        SettledIsTaken(i);
      }
    }

    /** The merge itself, and what it leaves to do. */
    method MergeTarget(i: nat, t: nat, ghost seen: set<string>)
      requires Valid() && i < |init| && init[i].ref != "" && defs.Some? && init[i].ref !in seen && visited == seen + {init[i].ref}
      requires Listed(init, defs.value, init[i].kind) && Find(init, defs.value, init[i].kind, init[i].ref) == Some(t)
      requires Resolvable(init, defs, visited, t) && t in settled
      modifies `store, `taken
      ensures Valid() && AllGrew(old(store), store) && taken == old(taken) + {i}
      ensures Target(init, defs, i) == Some(t)
      ensures forall k: nat :: k in Kids(store[i]) ==> k < |init|
      ensures Resolvable(init, defs, seen, i) <==> forall k: nat :: k in Kids(store[i]) && k < |init| ==> Resolvable(init, defs, visited, k)
      ensures forall k: nat :: k in Kids(init[i]) ==> k in Kids(store[i])
      ensures init[i].kind.Tag? ==> forall k: nat :: k in Kids(init[t]) ==> k in Kids(store[i])
    {
      hide Resolvable, Evolved, AllGrew, Find, Listed, Closed, AllPartlyTaken, AllTakenOver, Kids, Merged, Target, WellFormed, Refs,
        Silent;
      MergeFacts(init, defs, store, taken, seen, i, t);
      ghost var next := store[i := Merged(store[i], store[t])];
      Merge(i, t);
      assert store == next;
      taken := taken + {i};
    }

    method ResolveEach(ids: seq<nat>, floor: nat) returns (ok: bool)
      requires Valid() && floor <= |init| && forall k: nat :: k in ids ==> floor <= k < |init|
      modifies this
      ensures Valid() && visited == old(visited)
      ensures ok <==> forall k: nat :: k in ids && k < |init| ==> Resolvable(init, defs, old(visited), k)
      ensures AllGrew(old(store), store) && old(settled) <= settled && old(taken) <= taken && (ok ==> forall k: nat :: k in ids ==> k in settled)
      decreases |Refs(init) - visited|, |init| - floor, 4
    {
      hide Resolvable, Evolved, EvolvedAt, AllGrew, Merging, Closed;
      ghost var before := store;
      NothingGrew(store);
      for j := 0 to |ids|
        invariant Valid() && visited == old(visited) && AllGrew(before, store)
        invariant old(settled) <= settled && old(taken) <= taken && forall k: nat :: k in ids[..j] ==> k in settled
        invariant forall k: nat :: k in ids[..j] && k < |init| ==> Resolvable(init, defs, visited, k)
      {
        assert ids[j] in ids;
        ghost var s1 := store;
        ok := Resolve(ids[j]);
        AllGrewOn(before, s1, store);
        if !ok { return; }
        assert ids[..j + 1] == ids[..j] + [ids[j]];
      }
      assert ids[..|ids|] == ids;
      return true;
    }

    /** resolveRefs: every top-level definition, each from an empty path. */
    method ResolveAll(nodes: seq<nat>, tags: seq<nat>) returns (ok: bool)
      requires Valid() && visited == {} && (forall k: nat :: k in nodes || k in tags ==> k < |init|)
      modifies this
      ensures Valid() && visited == {}
      ensures ok <==> forall k: nat :: (k in nodes || k in tags) && k < |init| ==> Resolvable(init, defs, {}, k)
      ensures AllGrew(old(store), store)
      ensures ok ==> (forall k: nat :: k in nodes || k in tags ==> k in settled)
      ensures Closed(init, defs, settled) && forall k: nat :: k in settled ==> k < |init| && TakenOver(init, defs, store, k)
    {
      hide Resolvable, Evolved, EvolvedAt, AllGrew, Closed, TakenOver;
      ghost var s0 := store;
      ok := ResolveEach(nodes, 0);
      if !ok { return; }
      ghost var s1 := store;
      ok := ResolveEach(tags, 0);
      AllGrewOn(s0, s1, store);
    }

    /** resolvePropRef, resolveValueRef and resolveTagRef: nothing to do without a ref or without definitions. */
    method ResolveQuietly(i: nat) returns (ok: bool)
      requires Valid() && i < |init| && Silent(init[i].kind)
      modifies this
      ensures Valid() && visited == old(visited)
      ensures ok <==> Resolvable(init, defs, old(visited), i)
      ensures AllGrew(old(store), store) && old(settled) <= settled && old(taken) <= taken
      ensures ok ==> i in settled && TakenOver(init, defs, store, i)
      decreases |Refs(init) - visited|, |init| - i, 2
    {
      assert EvolvedAt(init, defs, store, i);
      NothingGrew(store);
      hide Merging, Closed;
      if store[i].ref == "" || defs.None? {
        SettlePlain(i);
        SettledIsTaken(i);
        return true;
      }
      ok := ResolveRef(i);
    }
  }
}
