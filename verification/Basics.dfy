// Bytes, the option type and the writer's append-only output.
module Basics {
  type Byte = b: int | 0 <= b < 256 witness 0
  type Bytes = seq<Byte>

  datatype Option<+T> = None | Some(value: T) {
    predicate IsFailure() { None? }

    function PropagateFailure<U>(): Option<U>
      requires None?
    {
      None
    }

    function Extract(): T
      requires Some?
    {
      value
    }
  }

  /** The concatenation of a list of byte strings. */
  function Concat(parts: seq<Bytes>): Bytes {
    if parts == [] then [] else Concat(parts[..|parts| - 1]) + parts[|parts| - 1]
  }

  lemma Assoc(a: Bytes, b: Bytes, c: Bytes)
    ensures (a + b) + c == a + (b + c)
  {}

  lemma SliceOfSlice(s: Bytes, a: nat, b: nat, c: nat, d: nat)
    requires a <= b <= |s| && c <= d <= b - a
    ensures s[a..b][c..d] == s[a + c..a + d]
  {
    forall k | 0 <= k < d - c ensures s[a..b][c..d][k] == s[a + c..a + d][k] {}
  }

  function Repeat(c: Byte, n: nat): (s: Bytes)
    ensures |s| == n && forall k :: 0 <= k < n ==> s[k] == c
  {
    if n == 0 then [] else [c] + Repeat(c, n - 1)
  }

  /** text stands in t at j. */
  predicate StandsAt(text: Bytes, t: Bytes, j: nat) {
    j + |text| <= |t| && t[j..j + |text|] == text
  }

  lemma StandsPart(text: Bytes, t: Bytes, i: nat, from: nat, to: nat)
    requires StandsAt(text, t, i) && from <= to <= |text|
    ensures StandsAt(text[from..to], t, i + from)
    ensures forall k :: from <= k < to ==> t[i + k] == text[k]
  {
    forall k | from <= k < to ensures t[i + k] == text[k] {
      assert t[i..i + |text|][k] == text[k];
    }
    var part := text[from..to];
    forall k | 0 <= k < |part| ensures t[i + from..i + from + |part|][k] == part[k] {
      assert t[i + (from + k)] == text[from + k];
    }
  }
}
