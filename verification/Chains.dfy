// Which schemas the resolver refuses although nothing in them is circular.
module Chains {
  import opened Basics
  import opened Schema

  // ----- what lies below a definition -----

  /** A definition whose ref is followed. */
  predicate FollowsRef(init: seq<Def>, defs: Option<Definitions>, i: nat)
    requires i < |init|
  {
    init[i].ref != "" && defs.Some?
  }

  /** The definition that the ref of i stands for. */
  ghost function Target(init: seq<Def>, defs: Option<Definitions>, i: nat): (t: Option<nat>)
    requires WellFormed(init, defs) && i < |init|
    ensures t.Some? ==> t.value < |init|
  {
    if !FollowsRef(init, defs, i) then None
    else
      assert Listed(init, defs.value, init[i].kind);
      Find(init, defs.value, init[i].kind, init[i].ref)
  }

  /** Nothing is missing at i itself: its ref, if it has one that matters, names a definition. */
  ghost predicate Found(init: seq<Def>, defs: Option<Definitions>, i: nat)
    requires WellFormed(init, defs) && i < |init|
  {
    if init[i].ref == "" then true
    else if defs.None? then Silent(init[i].kind)
    else Target(init, defs, i).Some?
  }

  /** Resolving i leads on to j: the target of its ref, a definition nested in it, or one that it takes over. */
  ghost predicate Leads(init: seq<Def>, defs: Option<Definitions>, i: nat, j: nat)
    requires WellFormed(init, defs) && i < |init|
  {
    var d := init[i];
    && j < |init|
    && if d.ref == "" then !Silent(d.kind) && j in Kids(d)
       else
         var t := Target(init, defs, i);
         t.Some? && (j == t.value || j in Kids(d) || (d.kind.Tag? && init[t.value].ref == "" && j in Kids(init[t.value])))
  }

  ghost predicate IsChain(init: seq<Def>, defs: Option<Definitions>, chain: seq<nat>)
    requires WellFormed(init, defs)
  {
    && chain != [] && (forall m :: 0 <= m < |chain| ==> chain[m] < |init|)
    && (forall m :: 0 <= m < |chain| - 1 ==> Linked(init, defs, chain, m))
  }

  ghost predicate Linked(init: seq<Def>, defs: Option<Definitions>, chain: seq<nat>, m: nat)
    requires WellFormed(init, defs) && m + 1 < |chain|
  {
    chain[m] < |init| && Leads(init, defs, chain[m], chain[m + 1])
  }

  ghost predicate ChainFrom(init: seq<Def>, defs: Option<Definitions>, i: nat, chain: seq<nat>)
    requires WellFormed(init, defs)
  {
    IsChain(init, defs, chain) && chain[0] == i
  }

  /** Resolvable by what the refs stand for: on every way down, every ref names a definition and no definition is met twice. */
  ghost predicate Acyclic(init: seq<Def>, defs: Option<Definitions>, i: nat)
    requires WellFormed(init, defs) && i < |init|
  {
    forall chain :: ChainFrom(init, defs, i, chain) ==>
      Found(init, defs, chain[|chain| - 1]) && forall m, n :: 0 <= m < n < |chain| ==> chain[m] != chain[n]
  }

  /** On no way down is a ref text followed twice. */
  ghost predicate NoTextTwice(init: seq<Def>, defs: Option<Definitions>, i: nat)
    requires WellFormed(init, defs) && i < |init|
  {
    forall chain :: ChainFrom(init, defs, i, chain) ==> TextsDiffer(init, defs, chain)
  }

  ghost predicate TextsDiffer(init: seq<Def>, defs: Option<Definitions>, chain: seq<nat>)
    requires WellFormed(init, defs) && IsChain(init, defs, chain)
  {
    forall m, n :: 0 <= m < n < |chain| && FollowsRef(init, defs, chain[m]) && FollowsRef(init, defs, chain[n]) ==>
      init[chain[m]].ref != init[chain[n]].ref
  }

  // ----- the path that a chain leaves -----

  /** The path below i. */
  function Below(init: seq<Def>, defs: Option<Definitions>, seen: set<string>, i: nat): set<string>
    requires i < |init|
  {
    if FollowsRef(init, defs, i) then seen + {init[i].ref} else seen
  }

  /** What the resolver does at one definition. */
  lemma ResolvableUnfolds(init: seq<Def>, defs: Option<Definitions>, seen: set<string>, i: nat)
    requires WellFormed(init, defs) && i < |init|
    ensures Resolvable(init, defs, seen, i) <==>
      && Found(init, defs, i)
      && (FollowsRef(init, defs, i) ==> init[i].ref !in seen)
      && forall j: nat :: j < |init| && Leads(init, defs, i, j) ==> Resolvable(init, defs, Below(init, defs, seen, i), j)
  {
    if FollowsRef(init, defs, i) { FollowedUnfolds(init, defs, seen, i); } else { PlainUnfolds(init, defs, seen, i); }
  }

  lemma PlainUnfolds(init: seq<Def>, defs: Option<Definitions>, seen: set<string>, i: nat)
    requires WellFormed(init, defs) && i < |init| && !FollowsRef(init, defs, i)
    ensures Resolvable(init, defs, seen, i) <==>
      Found(init, defs, i) && forall j: nat :: j < |init| && Leads(init, defs, i, j) ==> Resolvable(init, defs, seen, j)
  {
    hide Find, Kids;
    var d := init[i];
    if d.ref != "" {
      if Silent(d.kind) { assert Resolvable(init, defs, seen, i); } else { RefRefused(init, defs, seen, i); }
    } else if Silent(d.kind) {
      assert Resolvable(init, defs, seen, i);
    } else {
      hide Resolvable;
      KidsVerdict(init, defs, seen, i);
      assert forall j: nat :: j < |init| ==> (Leads(init, defs, i, j) <==> j in Kids(d));
    }
  }

  lemma FollowedUnfolds(init: seq<Def>, defs: Option<Definitions>, seen: set<string>, i: nat)
    requires WellFormed(init, defs) && i < |init| && FollowsRef(init, defs, i)
    ensures Resolvable(init, defs, seen, i) <==>
      && Found(init, defs, i) && init[i].ref !in seen
      && forall j: nat :: j < |init| && Leads(init, defs, i, j) ==> Resolvable(init, defs, seen + {init[i].ref}, j)
  {
    hide Resolvable, Kids, Find;
    var d := init[i];
    assert Listed(init, defs.value, d.kind);
    var t := Find(init, defs.value, d.kind, d.ref);
    assert Target(init, defs, i) == t;
    if d.ref in seen || t.None? {
      RefRefused(init, defs, seen, i);
    } else {
      RefUnfolds(init, defs, seen, i, t.value);
      assert forall j: nat :: j < |init| ==> (Leads(init, defs, i, j) <==>
        j == t.value || j in Kids(d) || (d.kind.Tag? && init[t.value].ref == "" && j in Kids(init[t.value])));
    }
  }

  lemma RefUnfolds(init: seq<Def>, defs: Option<Definitions>, seen: set<string>, i: nat, t: nat)
    requires WellFormed(init, defs) && i < |init| && t < |init| && FollowsRef(init, defs, i) && init[i].ref !in seen
    requires Listed(init, defs.value, init[i].kind) && Find(init, defs.value, init[i].kind, init[i].ref) == Some(t)
    ensures var below := seen + {init[i].ref}; var d := init[i];
      Resolvable(init, defs, seen, i) <==> forall j: nat ::
        j < |init| && (j == t || j in Kids(d) || (d.kind.Tag? && init[t].ref == "" && j in Kids(init[t]))) ==> Resolvable(init, defs, below, j)
  {
    var below := seen + {init[i].ref};
    RefVerdictUnfolds(init, defs, seen, i, t);
    hide Resolvable, Find, Kids;
    EachIsBelow(init, defs, below, Kids(init[i]));
    EachIsBelow(init, defs, below, Kids(init[t]));
    hide AllBelow;
  }

  lemma RefVerdictUnfolds(init: seq<Def>, defs: Option<Definitions>, seen: set<string>, i: nat, t: nat)
    requires WellFormed(init, defs) && i < |init| && t < |init| && FollowsRef(init, defs, i) && init[i].ref !in seen
    requires Listed(init, defs.value, init[i].kind) && Find(init, defs.value, init[i].kind, init[i].ref) == Some(t)
    ensures var below := seen + {init[i].ref}; var d := init[i];
      Resolvable(init, defs, seen, i) <==>
        && Resolvable(init, defs, below, t)
        && AllBelow(init, defs, below, Kids(d))
        && (d.kind.Tag? && init[t].ref == "" ==> AllBelow(init, defs, below, Kids(init[t])))
  {
    hide Find, Kids, AllBelow;
    FewerLeft(init, seen, i);
  }

  /** A chain from i is resolvable as far as it goes. */
  lemma {:induction false} AlongChain(init: seq<Def>, defs: Option<Definitions>, seen: set<string>, chain: seq<nat>)
    requires WellFormed(init, defs) && IsChain(init, defs, chain) && Resolvable(init, defs, seen, chain[0])
    ensures Found(init, defs, chain[|chain| - 1])
    ensures forall m :: 0 <= m < |chain| && FollowsRef(init, defs, chain[m]) ==> init[chain[m]].ref !in seen
    ensures TextsDiffer(init, defs, chain)
    decreases |chain|
  {
    hide Resolvable, Found, Leads, FollowsRef;
    ResolvableUnfolds(init, defs, seen, chain[0]);
    if |chain| > 1 {
      var rest := chain[1..];
      RestIsChain(init, defs, chain);
      assert Linked(init, defs, chain, 0);
      AlongChain(init, defs, Below(init, defs, seen, chain[0]), rest);
      forall m | 0 <= m < |chain| && FollowsRef(init, defs, chain[m]) ensures init[chain[m]].ref !in seen {
        if m > 0 { assert chain[m] == rest[m - 1]; }
      }
      forall m, n | 0 <= m < n < |chain| && FollowsRef(init, defs, chain[m]) && FollowsRef(init, defs, chain[n])
        ensures init[chain[m]].ref != init[chain[n]].ref
      {
        assert chain[n] == rest[n - 1];
        if m > 0 { assert chain[m] == rest[m - 1]; }
      }
    }
  }

  lemma RestIsChain(init: seq<Def>, defs: Option<Definitions>, chain: seq<nat>)
    requires WellFormed(init, defs) && IsChain(init, defs, chain) && |chain| > 1
    ensures IsChain(init, defs, chain[1..])
  {
    hide Leads;
    var rest := chain[1..];
    forall m | 0 <= m < |rest| - 1 ensures Linked(init, defs, rest, m) {
      assert Linked(init, defs, chain, m + 1);
    }
  }

  lemma ConsIsChain(init: seq<Def>, defs: Option<Definitions>, i: nat, chain: seq<nat>)
    requires WellFormed(init, defs) && IsChain(init, defs, chain) && i < |init| && Leads(init, defs, i, chain[0])
    ensures ChainFrom(init, defs, i, [i] + chain)
  {
    hide Leads;
    var all := [i] + chain;
    forall m | 0 <= m < |all| - 1 ensures Linked(init, defs, all, m) {
      if m > 0 { assert Linked(init, defs, chain, m - 1); }
    }
  }

  lemma OneIsChain(init: seq<Def>, defs: Option<Definitions>, i: nat)
    requires WellFormed(init, defs) && i < |init|
    ensures ChainFrom(init, defs, i, [i])
  {}

  /** What a chain must be like for the resolver to get to its end below a path. */
  ghost predicate Passable(init: seq<Def>, defs: Option<Definitions>, seen: set<string>, chain: seq<nat>)
    requires WellFormed(init, defs) && IsChain(init, defs, chain)
  {
    && Found(init, defs, chain[|chain| - 1])
    && (forall m :: 0 <= m < |chain| && FollowsRef(init, defs, chain[m]) ==> init[chain[m]].ref !in seen)
    && TextsDiffer(init, defs, chain)
  }

  /** If all chains from i are passable, i is resolvable. */
  lemma {:induction false} ChainsSuffice(init: seq<Def>, defs: Option<Definitions>, seen: set<string>, i: nat)
    requires WellFormed(init, defs) && i < |init|
    requires forall chain :: ChainFrom(init, defs, i, chain) ==> Passable(init, defs, seen, chain)
    ensures Resolvable(init, defs, seen, i)
    decreases |Refs(init) - seen|, |init| - i
  {
    hide Resolvable, Found, Leads;
    OneIsChain(init, defs, i);
    assert Passable(init, defs, seen, [i]);
    assert [i][0] == i;
    var below := Below(init, defs, seen, i);
    forall j: nat | j < |init| && Leads(init, defs, i, j) ensures Resolvable(init, defs, below, j) {
      LeadsInside(init, defs, i, j);
      forall chain | ChainFrom(init, defs, j, chain) ensures Passable(init, defs, below, chain) {
        ConsIsChain(init, defs, i, chain);
        TailIsPassable(init, defs, seen, i, chain);
      }
      if FollowsRef(init, defs, i) { FewerLeft(init, seen, i); }
      ChainsSuffice(init, defs, below, j);
    }
    ResolvableUnfolds(init, defs, seen, i);
  }

  lemma LeadsInside(init: seq<Def>, defs: Option<Definitions>, i: nat, j: nat)
    requires WellFormed(init, defs) && i < |init| && Leads(init, defs, i, j)
    ensures j < |init| && (!FollowsRef(init, defs, i) ==> i < j)
  {
    assert Nested(init, i);
  }

  lemma TailIsPassable(init: seq<Def>, defs: Option<Definitions>, seen: set<string>, i: nat, chain: seq<nat>)
    requires WellFormed(init, defs) && i < |init| && IsChain(init, defs, chain) && IsChain(init, defs, [i] + chain)
    requires Passable(init, defs, seen, [i] + chain)
    ensures Passable(init, defs, Below(init, defs, seen, i), chain)
  {
    hide Found, FollowsRef, Linked, WellFormed;
    var all := [i] + chain;
    assert all[|all| - 1] == chain[|chain| - 1];
    forall m | 0 <= m < |chain| && FollowsRef(init, defs, chain[m])
      ensures init[chain[m]].ref !in Below(init, defs, seen, i)
    {
      assert all[m + 1] == chain[m] && all[0] == i;
    }
    forall m, n | 0 <= m < n < |chain| && FollowsRef(init, defs, chain[m]) && FollowsRef(init, defs, chain[n])
      ensures init[chain[m]].ref != init[chain[n]].ref
    {
      assert all[m + 1] == chain[m] && all[n + 1] == chain[n];
    }
  }

  // ----- no definition twice -----

  /** Between two occurrences of a definition on a chain a ref is followed. */
  lemma {:induction false} RefOnCycle(init: seq<Def>, defs: Option<Definitions>, chain: seq<nat>, a: nat, b: nat) returns (x: nat)
    requires WellFormed(init, defs) && IsChain(init, defs, chain) && a < b < |chain| && chain[b] <= chain[a]
    ensures a <= x < b && FollowsRef(init, defs, chain[x])
    decreases b - a
  {
    hide Leads, FollowsRef;
    if FollowsRef(init, defs, chain[a]) {
      x := a;
    } else {
      assert Linked(init, defs, chain, a);
      LeadsInside(init, defs, chain[a], chain[a + 1]);
      x := RefOnCycle(init, defs, chain, a + 1, b);
    }
  }

  /** A chain that comes back to a definition can go round again. */
  lemma GoRound(init: seq<Def>, defs: Option<Definitions>, chain: seq<nat>, a: nat, b: nat, x: nat)
    requires WellFormed(init, defs) && IsChain(init, defs, chain) && a <= x < b < |chain| && chain[a] == chain[b]
    ensures var round := chain[..b + 1] + chain[a + 1..x + 1]; ChainFrom(init, defs, chain[0], round) && round[b + (x - a)] == chain[x] && round[x] == chain[x]
  {
    hide Leads;
    var round := chain[..b + 1] + chain[a + 1..x + 1];
    forall m | 0 <= m < |round| - 1 ensures Linked(init, defs, round, m) {
      if m < b {
        assert Linked(init, defs, chain, m);
      } else {
        assert Linked(init, defs, chain, a + (m - b));
      }
    }
  }

  lemma TextsKeepApart(init: seq<Def>, defs: Option<Definitions>, i: nat, chain: seq<nat>, a: nat, b: nat)
    requires WellFormed(init, defs) && i < |init| && NoTextTwice(init, defs, i) && ChainFrom(init, defs, i, chain) && a < b < |chain|
    ensures chain[a] != chain[b]
  {
    hide Leads, FollowsRef, Linked;
    if chain[a] == chain[b] {
      var x := RefOnCycle(init, defs, chain, a, b);
      GoRound(init, defs, chain, a, b, x);
      SameTextTwice(init, defs, chain[..b + 1] + chain[a + 1..x + 1], x, b + (x - a));
    }
  }

  lemma SameTextTwice(init: seq<Def>, defs: Option<Definitions>, chain: seq<nat>, m: nat, n: nat)
    requires WellFormed(init, defs) && IsChain(init, defs, chain) && m < n < |chain| && chain[m] == chain[n] && FollowsRef(init, defs, chain[m])
    ensures !TextsDiffer(init, defs, chain)
  {}

  /**
   * Main result: the resolver accepts a definition exactly when its refs can be followed without ever coming back to a
   * definition, and, on top of that, no ref text occurs twice on a way down.
   */
  lemma ResolvableExactly(init: seq<Def>, defs: Option<Definitions>, i: nat)
    requires WellFormed(init, defs) && i < |init|
    ensures Resolvable(init, defs, {}, i) <==> Acyclic(init, defs, i) && NoTextTwice(init, defs, i)
  {
    hide Resolvable, Found, Leads, FollowsRef;
    if Resolvable(init, defs, {}, i) {
      forall chain | ChainFrom(init, defs, i, chain) ensures Found(init, defs, chain[|chain| - 1]) && TextsDiffer(init, defs, chain) {
        AlongChain(init, defs, {}, chain);
      }
      forall chain, m, n | ChainFrom(init, defs, i, chain) && 0 <= m < n < |chain| ensures chain[m] != chain[n] {
        TextsKeepApart(init, defs, i, chain, m, n);
      }
    }
    if Acyclic(init, defs, i) && NoTextTwice(init, defs, i) {
      forall chain | ChainFrom(init, defs, i, chain) ensures Passable(init, defs, {}, chain) {}
      ChainsSuffice(init, defs, {}, i);
    }
  }

  // ----- a schema that is refused without being circular -----

  const REF: string := "[id=\"x\"]"

  function Plain(kind: Kind, ref: string, id: string, props: seq<nat>): Def {
    Def(kind, ref, id, "", "", [], props, [], None, [], [], None, None, None)
  }

  /** A node with a property, each referring to the definition of its own kind that has the id x. */
  const STORE: seq<Def> := [Plain(Kind.Node, REF, "", [1]), Plain(Property, REF, "", []), Plain(Kind.Node, "", "x", []), Plain(Property, "", "x", [])]
  const DEFINITIONS: Definitions := Definitions([2], [3], [], [], [])

  lemma StoreIsWellFormed()
    ensures WellFormed(STORE, Some(DEFINITIONS))
  {}

  lemma RefIsById()
    ensures ParseRef(REF) == Some(ById("x"))
  {
    assert TrimLeft(REF, IsSpace) == REF;
    assert TrimRight(REF, IsSpace) == REF;
    var q := "\"x\"";
    assert REF[4..|REF| - 1] == q;
    assert TrimLeft(q, IsQuote) == TrimLeft(q[1..], IsQuote) == q[1..];
    var r := q[1..];
    assert r[..|r| - 1] == "x";
    assert TrimRight(r, IsQuote) == TrimRight("x", IsQuote) == "x";
  }

  lemma TargetsAre()
    requires WellFormed(STORE, Some(DEFINITIONS))
    ensures Target(STORE, Some(DEFINITIONS), 0) == Some(2) && Target(STORE, Some(DEFINITIONS), 1) == Some(3)
  {
    RefIsById();
    assert DEFINITIONS.Of(Kind.Node) == [2] && DEFINITIONS.Of(Property) == [3];
  }

  lemma WaysAre(i: nat, j: nat)
    requires WellFormed(STORE, Some(DEFINITIONS)) && i < 4 && Leads(STORE, Some(DEFINITIONS), i, j)
    ensures i < j < 4 && i < 2
  {
    hide Find, ParseRef;
    TargetsAre();
  }

  lemma {:induction false} WaysGrow(chain: seq<nat>, m: nat, n: nat)
    requires WellFormed(STORE, Some(DEFINITIONS)) && IsChain(STORE, Some(DEFINITIONS), chain) && m < n < |chain|
    ensures chain[m] < chain[n]
    decreases n - m
  {
    hide Leads;
    assert Linked(STORE, Some(DEFINITIONS), chain, m);
    WaysAre(chain[m], chain[m + 1]);
    if m + 1 < n { WaysGrow(chain, m + 1, n); }
  }

  /** Nothing in this schema is circular, and the resolver refuses it. */
  lemma HarmlessSchemaIsRefused()
    ensures WellFormed(STORE, Some(DEFINITIONS))
    ensures Acyclic(STORE, Some(DEFINITIONS), 0) && !Resolvable(STORE, Some(DEFINITIONS), {}, 0)
  {
    hide Find, ParseRef, Resolvable, Leads, Linked, Target, Found;
    StoreIsWellFormed();
    TargetsAre();
    forall chain | ChainFrom(STORE, Some(DEFINITIONS), 0, chain)
      ensures Found(STORE, Some(DEFINITIONS), chain[|chain| - 1])
    {
      LastIsFound(chain);
    }
    forall chain, m, n | ChainFrom(STORE, Some(DEFINITIONS), 0, chain) && 0 <= m < n < |chain| ensures chain[m] != chain[n] {
      WaysGrow(chain, m, n);
    }
    SameRefBelowIsRefused(STORE, Some(DEFINITIONS), {}, 0, 1);
  }

  lemma LastIsFound(chain: seq<nat>)
    requires WellFormed(STORE, Some(DEFINITIONS)) && IsChain(STORE, Some(DEFINITIONS), chain)
    ensures Found(STORE, Some(DEFINITIONS), chain[|chain| - 1])
  {
    hide Find, ParseRef, Leads;
    TargetsAre();
    var i := chain[|chain| - 1];
    assert i == 0 || i == 1 || i == 2 || i == 3;
  }
}
