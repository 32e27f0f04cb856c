// What each mutator of a node does, by what can be asked of the node before and after it.
module Mutations {
  import opened Basics
  import opened Documents
  import opened Editing
  import opened Properties
  import opened Tokens
  import Sessions

  /** Nothing but what the mutator is for has changed. */
  predicate OnlyItsPart(n: Node, r: Node, m: Mutation) {
    match m
    case AddNode(_) | RemoveNode(_) | SetChildren(_) => n.(children := r.children, raw := r.raw) == r
    case AddArgument(_) | SetArguments(_) => n.(args := r.args, raw := r.raw) == r
    case AddProperty(_, _) | DeleteProperty(_) => n.(props := r.props, raw := r.raw) == r
    case SetType(_) => n.(typ := r.typ, raw := r.raw) == r
    case SetName(_) => n.(name := r.name, raw := r.raw) == r
  }

  /** The child at k, the first of its name, is gone, and nothing else. */
  predicate Lacks(n: Node, r: Node, name: Bytes, k: nat) {
    && k < |n.children| == |r.children| + 1
    && KeyText(n.children[k].name.content) == name
    && (forall j :: 0 <= j < k ==> r.children[j] == n.children[j] && KeyText(n.children[j].name.content) != name)
    && (forall j :: k <= j < |r.children| ==> r.children[j] == n.children[j + 1])
  }

  predicate Unnamed(n: Node, name: Bytes) {
    forall j :: 0 <= j < |n.children| ==> KeyText(n.children[j].name.content) != name
  }

  /** Removing a child takes away the first of that name, and changes nothing if there is none. */
  lemma RemovesTheFirst(n: Node, name: Bytes)
    ensures var r := Mutate(n, RemoveNode(name));
      if Unnamed(n, name) then r == n
      else r.raw.None? && exists k: nat :: Lacks(n, r, name, k)
  {
    var r, k := Mutate(n, RemoveNode(name)), IndexOf(n.children, name, 0);
    if k < |n.children| {
      assert KeyText(n.children[k].name.content) == name;
      assert Lacks(n, r, name, k);
    }
  }

  /** Adding a child of a new name and removing it again gives back the children. */
  lemma AddedIsRemoved(n: Node, child: Node)
    requires Unnamed(n, KeyText(child.name.content))
    ensures var r := Mutate(n, AddNode(child));
      && |r.children| == |n.children| + 1 && r.children[|n.children|] == child
      && Mutate(r, RemoveNode(KeyText(child.name.content))) == n.(raw := None)
  {
    var r, name := Mutate(n, AddNode(child)), KeyText(child.name.content);
    var k := IndexOf(r.children, name, 0);
    assert r.children[|n.children|] == child;
    assert forall j :: 0 <= j < |n.children| ==> r.children[j] == n.children[j];
    assert k == |n.children|;
    assert r.children[..k] + r.children[k + 1..] == n.children;
  }

  /** Properties behave as a map: what was put is found, what was deleted is not, all else is as it was. */
  lemma PropertiesAreSet(n: Node, key: Bytes, value: Value, other: Bytes)
    requires DistinctKeys(n.props)
    ensures Lookup(Mutate(n, AddProperty(key, value)).props, other) == if other == key then Some(value) else Lookup(n.props, other)
    ensures Lookup(Mutate(n, DeleteProperty(key)).props, other) == if other == key then None else Lookup(n.props, other)
    ensures Lookup(n.props, key).None? ==> Mutate(n, DeleteProperty(key)) == n
    ensures Lookup(n.props, key).None? ==> Mutate(Mutate(n, AddProperty(key, value)), DeleteProperty(key)) == n.(raw := None)
  {
    PutLookup(n.props, key, value, other);
    DistinctIsNoRepeats(n.props);
    RemoveLookup(n.props, key, other);
    if Lookup(n.props, key).None? {
      PutLookup(n.props, key, value, key);
      AbsentEverywhere(n.props, key);
      PutFresh(n.props, key, value);
      RemoveLast(n.props, Prop(key, value));
    }
  }

  lemma DistinctIsNoRepeats(ps: seq<Prop>)
    requires DistinctKeys(ps)
    ensures NoRepeats(KeysOf(ps))
  {}

  lemma {:induction false} AbsentEverywhere(ps: seq<Prop>, key: Bytes)
    requires Lookup(ps, key).None?
    ensures forall i :: 0 <= i < |ps| ==> ps[i].key != key
  {
    if ps != [] {
      AbsentEverywhere(ps[1..], key);
      assert forall i :: 0 < i < |ps| ==> ps[i] == ps[1..][i - 1];
    }
  }

  lemma {:induction false} RemoveLast(ps: seq<Prop>, p: Prop)
    requires forall i :: 0 <= i < |ps| ==> ps[i].key != p.key
    ensures Remove(ps + [p], p.key) == ps
  {
    if ps == [] {
      assert [p][1..] == [];
    } else {
      assert (ps + [p])[1..] == ps[1..] + [p];
      RemoveLast(ps[1..], p);
      assert ps == [ps[0]] + ps[1..];
    }
  }

  /** Setting is what adding one by one to nothing comes to; the last setting counts. */
  lemma SettersOverwrite(n: Node, args: seq<Value>, arg: Value, children: seq<Node>, child: Node)
    ensures Mutate(n, SetArguments(args)).args == args && Mutate(n, SetChildren(children)).children == children
    ensures Mutate(Mutate(n, SetArguments(args)), AddArgument(arg)) == Mutate(n, SetArguments(args + [arg]))
    ensures Mutate(Mutate(n, SetChildren(children)), AddNode(child)) == Mutate(n, SetChildren(children + [child]))
  {}

  /** Every mutator leaves all but its own part alone, and a node that it changes has no raw bytes afterwards. */
  lemma MutatesOnlyItsPart(n: Node, m: Mutation)
    ensures OnlyItsPart(n, Mutate(n, m), m) && (Mutate(n, m) == n || Mutate(n, m).raw.None?)
    ensures m.SetType? ==> Mutate(n, m).typ == m.typ
    ensures m.SetName? ==> Mutate(n, m).name.content == Text(m.text) && Mutate(n, m).name.typ == [] && Mutate(n, m).name.raw == None
  {}

  /** A setter of a value sets what it is for, leaves the rest alone, and makes the value be spelled anew; a flag respells numbers only. */
  lemma ChangesOnlyItsPart(v: Value, change: Sessions.Change)
    ensures var r := Sessions.Changed(v, change);
      && r.raw == None
      && (change.NewContent? ==> r == v.(content := change.content, raw := None))
      && (change.NewType? ==> r == v.(typ := change.typ, raw := None))
      && (change.NewFlag? ==> r == v.(content := r.content, flag := change.flag, raw := None))
      && (change.NewFlag? && v.content.Literal? && v.content.id in {Decimal, Hexadecimal, Octal, Binary} ==>
            r.content == Literal(change.id, change.spelling))
      && (change.NewFlag? && !(v.content.Literal? && v.content.id in {Decimal, Hexadecimal, Octal, Binary}) ==> r.content == v.content)
  {}
}
