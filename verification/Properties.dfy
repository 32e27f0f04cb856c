// The ordered property map: a slice of keys and a map that must agree, refining an association list.
module Properties {
  import opened Basics
  import opened Documents

  function KeysOf(ps: seq<Prop>): (r: seq<Bytes>)
    ensures |r| == |ps| && forall i :: 0 <= i < |r| ==> r[i] == ps[i].key
  {
    seq(|ps|, i requires 0 <= i < |ps| => ps[i].key)
  }

  function Lookup(ps: seq<Prop>, key: Bytes): Option<Value> {
    if ps == [] then None else if ps[0].key == key then Some(ps[0].value) else Lookup(ps[1..], key)
  }

  function Remove(ps: seq<Prop>, key: Bytes): seq<Prop> {
    if ps == [] then [] else if ps[0].key == key then ps[1..] else [ps[0]] + Remove(ps[1..], key)
  }

  predicate NoRepeats(keys: seq<Bytes>) {
    forall i, j :: 0 <= i < j < |keys| ==> keys[i] != keys[j]
  }

  /** The association list that a slice of keys and a map stand for. */
  function Zip(order: seq<Bytes>, props: map<Bytes, Value>): (r: seq<Prop>)
    requires forall k :: k in order ==> k in props
    ensures |r| == |order| && forall i :: 0 <= i < |r| ==> r[i] == Prop(order[i], props[order[i]])
  {
    seq(|order|, i requires 0 <= i < |order| => assert order[i] in order; Prop(order[i], props[order[i]]))
  }

  class OrderedMap {
    var order: seq<Bytes>
    var props: map<Bytes, Value>
    /** The slice and the map have been made. */
    var made: bool

    /** The slice lists each key of the map once. */
    ghost predicate Valid()
      reads this
    {
      && NoRepeats(order)
      && (forall k :: k in order <==> k in props)
    }

    ghost function Contents(): seq<Prop>
      requires Valid()
      reads this
    {
      Zip(order, props)
    }

    constructor ()
      ensures Valid() && Contents() == [] && !made
    {
      order, props, made := [], map[], false;
    }

    method Alloc()
      modifies this
      ensures Valid() && Contents() == [] && made
    {
      order, props, made := [], map[], true;
    }

    method Len() returns (n: nat)
      requires Valid()
      ensures n == |Contents()|
    {
      return |order|;
    }

    method Exist() returns (b: bool)
      requires Valid()
      ensures b == (Contents() != [])
    {
      return |order| > 0;
    }

    method Get(key: Bytes) returns (v: Option<Value>)
      requires Valid()
      ensures v == Lookup(Contents(), key)
    {
      ZipLookup(order, props, key);
      return if key in props then Some(props[key]) else None;
    }

    method Keys() returns (keys: seq<Bytes>)
      requires Valid()
      ensures keys == KeysOf(Contents())
    {
      return order;
    }

    method Add(name: Bytes, val: Value)
      requires Valid() && made
      modifies `order, `props
      ensures Valid() && Contents() == Put(old(Contents()), name, val)
    {
      ZipPut(order, props, name, val);
      if name !in props {
        order := order + [name];
      }
      props := props[name := val];
    }

    method Delete(name: Bytes) returns (deleted: bool)
      requires Valid()
      modifies `order, `props
      ensures Valid() && Contents() == Remove(old(Contents()), name)
      ensures deleted <==> HasKey(old(Contents()), name)
    {
      if name !in props {
        ZipRemoveNothing(order, props, name);
        return false;
      }
      props := map k | k in props && k != name :: props[k];
      var i := 0;
      while i < |order|
        invariant 0 <= i <= |order| && order == old(order)
        invariant forall j :: 0 <= j < i ==> order[j] != name
      {
        if order[i] == name {
          ZipRemove(order, old(props), name, i);
          order := order[..i] + order[i + 1..];
          break;
        }
        i := i + 1;
      }
      return true;
    }
  }

  lemma {:induction false} ZipLookup(order: seq<Bytes>, props: map<Bytes, Value>, key: Bytes)
    requires forall k :: k in order ==> k in props
    ensures Lookup(Zip(order, props), key) == if key in order then Some(props[key]) else None
  {
    if order != [] {
      assert order[0] in order && forall k :: k in order[1..] ==> k in order;
      assert Zip(order, props)[1..] == Zip(order[1..], props);
      ZipLookup(order[1..], props, key);
      assert key in order <==> key == order[0] || key in order[1..];
    }
  }

  lemma {:induction false} PutAt(ps: seq<Prop>, key: Bytes, v: Value, i: nat)
    requires i < |ps| && ps[i].key == key && forall j :: 0 <= j < i ==> ps[j].key != key
    ensures Put(ps, key, v) == ps[i := Prop(key, v)]
    decreases i
  {
    if i > 0 {
      PutAt(ps[1..], key, v, i - 1);
      assert [ps[0]] + ps[1..][i - 1 := Prop(key, v)] == ps[i := Prop(key, v)];
    }
  }

  lemma {:induction false} RemoveAt(ps: seq<Prop>, key: Bytes, i: nat)
    requires i < |ps| && ps[i].key == key && forall j :: 0 <= j < i ==> ps[j].key != key
    ensures Remove(ps, key) == ps[..i] + ps[i + 1..]
    decreases i
  {
    if i > 0 {
      RemoveAt(ps[1..], key, i - 1);
      assert [ps[0]] + (ps[1..][..i - 1] + ps[1..][i..]) == ps[..i] + ps[i + 1..];
    } else {
      assert ps[..0] + ps[1..] == ps[1..];
    }
  }

  lemma ZipPut(order: seq<Bytes>, props: map<Bytes, Value>, key: Bytes, v: Value)
    requires NoRepeats(order) && forall k :: k in order ==> k in props
    ensures var next := if key in order then order else order + [key];
      NoRepeats(next) && (forall k :: k in next ==> k in props[key := v]) && Zip(next, props[key := v]) == Put(Zip(order, props), key, v)
  {
    hide Put;
    var ps := Zip(order, props);
    if key in order {
      var i :| 0 <= i < |order| && order[i] == key;
      PutAt(ps, key, v, i);
      assert Zip(order, props[key := v]) == ps[i := Prop(key, v)];
    } else {
      PutFresh(ps, key, v);
      assert Zip(order + [key], props[key := v]) == ps + [Prop(key, v)];
    }
  }

  lemma {:induction false} ZipRemoveNothing(order: seq<Bytes>, props: map<Bytes, Value>, key: Bytes)
    requires key !in order && forall k :: k in order ==> k in props
    ensures Remove(Zip(order, props), key) == Zip(order, props)
  {
    if order != [] {
      assert order[0] in order && forall k :: k in order[1..] ==> k in order;
      assert Zip(order, props)[1..] == Zip(order[1..], props);
      ZipRemoveNothing(order[1..], props, key);
    }
  }

  lemma ZipRemove(order: seq<Bytes>, props: map<Bytes, Value>, key: Bytes, i: nat)
    requires NoRepeats(order) && (forall k :: k in order ==> k in props) && i < |order| && order[i] == key
    ensures var next := order[..i] + order[i + 1..]; var less := map k | k in props && k != key :: props[k];
      NoRepeats(next) && (forall k :: k in next <==> k in order && k != key) && (forall k :: k in next ==> k in less)
      && Zip(next, less) == Remove(Zip(order, props), key)
  {
    hide Remove;
    var next := order[..i] + order[i + 1..];
    var less := map k | k in props && k != key :: props[k];
    var ps := Zip(order, props);
    RemoveAt(ps, key, i);
    WithoutAt(order, i);
    assert Zip(next, less) == ps[..i] + ps[i + 1..];
  }

  lemma WithoutAt(order: seq<Bytes>, i: nat)
    requires NoRepeats(order) && i < |order|
    ensures var next := order[..i] + order[i + 1..]; NoRepeats(next) && forall k :: k in next <==> k in order && k != order[i]
  {
    var next := order[..i] + order[i + 1..];
    forall k | k in order && k != order[i] ensures k in next {
      var j :| 0 <= j < |order| && order[j] == k;
      assert next[if j < i then j else j - 1] == k;
    }
    forall j | 0 <= j < |next| ensures next[j] == order[if j < i then j else j + 1] {}
  }

  // ----- what any sequence of operations leaves -----

  datatype Op = AddOp(key: Bytes, value: Value) | DeleteOp(key: Bytes)

  function Apply(ops: seq<Op>): seq<Prop> {
    if ops == [] then []
    else
      var before := Apply(ops[..|ops| - 1]);
      match ops[|ops| - 1]
      case AddOp(k, v) => Put(before, k, v)
      case DeleteOp(k) => Remove(before, k)
  }

  /** The value of the last addition of key, if it came after the last deletion. */
  function LastValue(ops: seq<Op>, key: Bytes): Option<Value> {
    if ops == [] then None
    else
      var last := ops[|ops| - 1];
      if last.key != key then LastValue(ops[..|ops| - 1], key)
      else if last.AddOp? then Some(last.value) else None
  }

  /** When key was first added since its last deletion. */
  function Birth(ops: seq<Op>, key: Bytes): (b: nat)
    ensures b <= |ops|
    ensures LastValue(ops, key).Some? ==> b < |ops|
  {
    if ops == [] then 0
    else
      var n := |ops| - 1;
      if ops[n].key == key && (ops[n].DeleteOp? || LastValue(ops[..n], key).None?) then n else Birth(ops[..n], key)
  }

  lemma {:induction false} PutLookup(ps: seq<Prop>, key: Bytes, v: Value, k: Bytes)
    ensures Lookup(Put(ps, key, v), k) == if k == key then Some(v) else Lookup(ps, k)
  {
    if ps != [] && ps[0].key != key { PutLookup(ps[1..], key, v, k); }
  }

  lemma KeysCons(p: Prop, ps: seq<Prop>)
    ensures KeysOf([p] + ps) == [p.key] + KeysOf(ps)
  {}

  lemma {:induction false} PutKeys(ps: seq<Prop>, key: Bytes, v: Value)
    ensures KeysOf(Put(ps, key, v)) == if Lookup(ps, key).Some? then KeysOf(ps) else KeysOf(ps) + [key]
  {
    hide KeysOf;
    if ps == [] {
      KeysCons(Prop(key, v), []);
      assert [Prop(key, v)] + [] == [Prop(key, v)];
      NoKeys();
    } else {
      assert ps == [ps[0]] + ps[1..];
      KeysCons(ps[0], ps[1..]);
      if ps[0].key == key {
        KeysCons(Prop(key, v), ps[1..]);
      } else {
        PutKeys(ps[1..], key, v);
        KeysCons(ps[0], Put(ps[1..], key, v));
        assert [ps[0].key] + (KeysOf(ps[1..]) + [key]) == [ps[0].key] + KeysOf(ps[1..]) + [key];
      }
    }
  }

  lemma NoKeys() ensures KeysOf([]) == [] {}

  function Without(keys: seq<Bytes>, key: Bytes): seq<Bytes> {
    if keys == [] then [] else if keys[0] == key then keys[1..] else [keys[0]] + Without(keys[1..], key)
  }

  lemma {:induction false} RemoveLookup(ps: seq<Prop>, key: Bytes, k: Bytes)
    requires NoRepeats(KeysOf(ps))
    ensures Lookup(Remove(ps, key), k) == if k == key then None else Lookup(ps, k)
  {
    if ps != [] {
      assert KeysOf(ps)[1..] == KeysOf(ps[1..]);
      if ps[0].key == key {
        AbsentLookup(ps[1..], key);
      } else {
        RemoveLookup(ps[1..], key, k);
      }
    }
  }

  lemma {:induction false} RemoveKeys(ps: seq<Prop>, key: Bytes)
    ensures KeysOf(Remove(ps, key)) == Without(KeysOf(ps), key)
  {
    if ps != [] {
      assert KeysOf(ps)[1..] == KeysOf(ps[1..]);
      if ps[0].key != key {
        RemoveKeys(ps[1..], key);
        assert KeysOf(Remove(ps, key)) == [ps[0].key] + KeysOf(Remove(ps[1..], key));
      }
    }
  }

  lemma {:induction false} AbsentLookup(ps: seq<Prop>, key: Bytes)
    ensures Lookup(ps, key).None? <==> key !in KeysOf(ps)
  {
    if ps != [] {
      AbsentLookup(ps[1..], key);
      assert KeysOf(ps) == [ps[0].key] + KeysOf(ps[1..]);
    }
  }

  predicate Sorted(ops: seq<Op>, keys: seq<Bytes>) {
    forall i, j :: 0 <= i < j < |keys| ==> Birth(ops, keys[i]) < Birth(ops, keys[j])
  }

  lemma {:induction false} WithoutHas(keys: seq<Bytes>, key: Bytes, k: Bytes)
    ensures k in Without(keys, key) ==> k in keys
    ensures NoRepeats(keys) ==> key !in Without(keys, key)
  {
    if keys != [] {
      WithoutHas(keys[1..], key, k);
    }
  }

  /** Leaving out a key keeps the others in order. */
  lemma {:induction false} WithoutSorted(ops: seq<Op>, keys: seq<Bytes>, key: Bytes)
    requires Sorted(ops, keys)
    ensures Sorted(ops, Without(keys, key))
  {
    hide Birth;
    if keys != [] {
      var rest := keys[1..];
      WithoutSorted(ops, rest, key);
      if keys[0] != key {
        var w := Without(rest, key);
        forall j | 0 <= j < |w| ensures Birth(ops, keys[0]) < Birth(ops, w[j]) {
          WithoutHas(rest, key, w[j]);
          var m :| 0 <= m < |rest| && rest[m] == w[j];
          assert keys[m + 1] == w[j];
        }
        SortedCons(ops, keys[0], w);
      }
    }
  }

  lemma SortedCons(ops: seq<Op>, k: Bytes, w: seq<Bytes>)
    requires Sorted(ops, w) && forall j :: 0 <= j < |w| ==> Birth(ops, k) < Birth(ops, w[j])
    ensures Sorted(ops, [k] + w)
  {
    hide Birth;
  }

  lemma SortedHasNoRepeats(ops: seq<Op>, keys: seq<Bytes>)
    requires Sorted(ops, keys)
    ensures NoRepeats(keys)
  {
    hide Birth;
  }

  /**
   * After any operations: no key twice; a key has the value of its last addition, or is absent if it was never added or
   * deleted since; and the keys stand in the order in which they were first added since their last deletion.
   */
  lemma {:induction false} ApplySpec(ops: seq<Op>)
    ensures NoRepeats(KeysOf(Apply(ops))) && DistinctKeys(Apply(ops))
    ensures forall k :: Lookup(Apply(ops), k) == LastValue(ops, k)
    ensures Sorted(ops, KeysOf(Apply(ops)))
  {
    if ops != [] {
      var n := |ops| - 1;
      ApplySpec(ops[..n]);
      LastOpSpec(ops, Apply(ops[..n]));
    }
    SortedHasNoRepeats(ops, KeysOf(Apply(ops)));
    KeysDistinct(Apply(ops));
  }

  lemma LastOpSpec(ops: seq<Op>, before: seq<Prop>)
    requires ops != [] && before == Apply(ops[..|ops| - 1])
    requires Sorted(ops[..|ops| - 1], KeysOf(before))
    requires forall k :: Lookup(before, k) == LastValue(ops[..|ops| - 1], k)
    ensures forall k :: Lookup(Apply(ops), k) == LastValue(ops, k)
    ensures Sorted(ops, KeysOf(Apply(ops)))
  {
    hide Lookup, Put, Remove, KeysOf, Without;
    var n := |ops| - 1;
    var key := ops[n].key;
    var keys := KeysOf(before);
    SortedHasNoRepeats(ops[..n], keys);
    AbsentLookup(before, key);
    if ops[n].AddOp? {
      forall k ensures Lookup(Apply(ops), k) == LastValue(ops, k) { PutLookup(before, key, ops[n].value, k); }
      PutKeys(before, key, ops[n].value);
      forall k ensures k in keys <==> LastValue(ops[..n], k).Some? { AbsentLookup(before, k); }
      AddSorts(ops, keys);
    } else {
      forall k ensures Lookup(Apply(ops), k) == LastValue(ops, k) { RemoveLookup(before, key, k); }
      RemoveKeys(before, key);
      WithoutSorted(ops[..n], keys, key);
      WithoutHas(keys, key, key);
      BirthsStay(ops, Without(keys, key));
    }
  }

  /** The last operation leaves the birth of every other key, and that of a key it adds again. */
  lemma BirthsStay(ops: seq<Op>, keys: seq<Bytes>)
    requires ops != [] && Sorted(ops[..|ops| - 1], keys)
    requires ops[|ops| - 1].key in keys ==> ops[|ops| - 1].AddOp? && LastValue(ops[..|ops| - 1], ops[|ops| - 1].key).Some?
    ensures Sorted(ops, keys)
  {
    var n := |ops| - 1;
    forall i | 0 <= i < |keys| ensures Birth(ops, keys[i]) == Birth(ops[..n], keys[i]) {
      assert keys[i] in keys;
    }
  }

  lemma AddSorts(ops: seq<Op>, keys: seq<Bytes>)
    requires ops != [] && Sorted(ops[..|ops| - 1], keys) && ops[|ops| - 1].AddOp?
    requires forall k :: k in keys <==> LastValue(ops[..|ops| - 1], k).Some?
    ensures var key := ops[|ops| - 1].key; Sorted(ops, if LastValue(ops[..|ops| - 1], key).Some? then keys else keys + [key])
  {
    var n := |ops| - 1;
    BirthsStay(ops, keys);
    var key := ops[n].key;
    if LastValue(ops[..n], key).None? {
      forall i | 0 <= i < |keys| ensures Birth(ops, keys[i]) < n {
        assert keys[i] in keys;
      }
    }
  }

  lemma KeysDistinct(ps: seq<Prop>)
    ensures DistinctKeys(ps) <==> NoRepeats(KeysOf(ps))
  {}

  /** A deleted key that is added again goes to the end. */
  lemma ReaddedGoesLast(ps: seq<Prop>, key: Bytes, v: Value)
    requires DistinctKeys(ps)
    ensures Put(Remove(ps, key), key, v) == Remove(ps, key) + [Prop(key, v)]
  {
    KeysDistinct(ps);
    RemoveLookup(ps, key, key);
    AbsentLookup(Remove(ps, key), key);
    var r := Remove(ps, key);
    forall i | 0 <= i < |r| ensures r[i].key != key { assert KeysOf(r)[i] in KeysOf(r); }
    PutFresh(r, key, v);
  }
}
