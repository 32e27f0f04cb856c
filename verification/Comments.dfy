// Multi-line comments: the depth counter of the scanner against the recursive grammar of the KDL 2.0.0 specification.
module Comments {
  import opened Basics
  import opened Utf8
  import opened Lexer

  predicate Opens(s: Bytes, i: nat) { i + 2 <= |s| && s[i] == '/' as int && s[i + 1] == '*' as int }

  predicate Closes(s: Bytes, i: nat) { i + 2 <= |s| && s[i] == '*' as int && s[i + 1] == '/' as int }

  /**
   * One character inside a comment. The grammar lists '*' and '/' among them; with greedy set, a character that
   * starts an opening or closing delimiter does not count as one.
   */
  predicate Character(s: Bytes, i: nat, j: nat, greedy: bool) {
    && i < |s|
    && PeekAt(s, i).Rune?
    && j == i + PeekAt(s, i).size
    && (greedy ==> !Opens(s, i) && !Closes(s, i))
  }

  /** commented-block: the closing delimiter, or a comment or character and then a commented-block. */
  ghost predicate Block(s: Bytes, i: nat, j: nat, greedy: bool)
    decreases |s| - i
  {
    && i < j <= |s|
    && (|| (Closes(s, i) && j == i + 2)
        || exists m: nat :: i < m < j && Item(s, i, m, greedy) && Block(s, m, j, greedy))
  }

  /** A nested comment or a character. */
  ghost predicate Item(s: Bytes, i: nat, m: nat, greedy: bool)
    requires i < m <= |s|
    decreases |s| - i, 0
  {
    Character(s, i, m, greedy) || (Opens(s, i) && Block(s, i + 2, m, greedy))
  }

  /** multi-line-comment: the opening delimiter and a commented-block. */
  ghost predicate Derives(s: Bytes, i: nat, j: nat, greedy: bool) {
    Opens(s, i) && Block(s, i + 2, j, greedy)
  }

  /** What the counter does on the next character. */
  lemma CounterStep(s: Bytes, i: nat, depth: int)
    requires i < |s|
    ensures Opens(s, i) ==> Comment(s, i, depth) == Comment(s, i + 2, depth + 1)
    ensures Closes(s, i) ==> Comment(s, i, depth) == if depth == 1 then Some(i + 2) else Comment(s, i + 2, depth - 1)
    ensures !Opens(s, i) && !Closes(s, i) && PeekAt(s, i).Rune? ==> Comment(s, i, depth) == Comment(s, i + PeekAt(s, i).size, depth)
    ensures !PeekAt(s, i).Rune? ==> Comment(s, i, depth) == None && !Opens(s, i) && !Closes(s, i)
  {
    AsciiDecodes(s, i);
    if i + 1 < |s| { AsciiDecodes(s, i + 1); }
  }

  /** Reading one block lowers the depth by one. */
  lemma {:induction false} BlockLowersDepth(s: Bytes, i: nat, j: nat, depth: int)
    requires Block(s, i, j, true) && depth >= 1
    ensures Comment(s, i, depth) == if depth == 1 then Some(j) else Comment(s, j, depth - 1)
    decreases |s| - i
  {
    hide Comment;
    CounterStep(s, i, depth);
    if !Closes(s, i) {
      var m: nat :| i < m < j && Item(s, i, m, true) && Block(s, m, j, true);
      if Opens(s, i) {
        BlockLowersDepth(s, i + 2, m, depth + 1);
      }
      BlockLowersDepth(s, m, j, depth);
    } else {
      ClosesEndsBlock(s, i, j);
    }
  }

  /** A greedy block that starts with the closing delimiter is just that. */
  lemma ClosesEndsBlock(s: Bytes, i: nat, j: nat)
    requires Block(s, i, j, true) && Closes(s, i)
    ensures j == i + 2
  {}

  /** If the counter succeeds it has read a block. */
  lemma {:induction false} CounterReadsBlock(s: Bytes, i: nat, depth: int) returns (m: nat)
    requires i <= |s| && depth >= 1 && Comment(s, i, depth).Some?
    ensures Block(s, i, m, true)
    ensures if depth == 1 then Comment(s, i, depth) == Some(m) else Comment(s, i, depth) == Comment(s, m, depth - 1)
    decreases |s| - i
  {
    hide Comment;
    if i == |s| { AtTheEnd(s, i, depth); }
    CounterStep(s, i, depth);
    if Closes(s, i) {
      m := i + 2;
    } else {
      var next: nat;
      if Opens(s, i) {
        next := CounterReadsBlock(s, i + 2, depth + 1);
      } else {
        next := i + PeekAt(s, i).size;
      }
      m := CounterReadsBlock(s, next, depth);
      assert Item(s, i, next, true) && Block(s, next, m, true);
    }
  }

  lemma AtTheEnd(s: Bytes, i: nat, depth: int)
    requires i == |s|
    ensures Comment(s, i, depth) == None
  {}

  /**
   * The counter accepts exactly the greedy derivation: the comment it finds is derived, a derived comment is the one
   * it finds (so there is at most one), and it fails exactly when no comment is derived.
   */
  lemma CounterIsTheGreedyGrammar(s: Bytes, i: nat, j: nat)
    requires Opens(s, i)
    ensures Comment(s, i, 0) == Some(j) <==> Derives(s, i, j, true)
    ensures Comment(s, i, 0) == None <==> forall k: nat :: !Derives(s, i, k, true)
  {
    hide Comment, Block;
    CounterStep(s, i, 0);
    if Comment(s, i + 2, 1).Some? {
      var m := CounterReadsBlock(s, i + 2, 1);
      assert Derives(s, i, m, true);
    }
    forall k: nat | Derives(s, i, k, true) ensures Comment(s, i, 0) == Some(k) {
      BlockLowersDepth(s, i + 2, k, 1);
    }
  }

  /** Whatever is derived greedily is derived by the grammar as written. */
  lemma {:induction false} GreedyIsDerived(s: Bytes, i: nat, j: nat)
    requires Block(s, i, j, true)
    ensures Block(s, i, j, false)
    decreases |s| - i
  {
    if !(Closes(s, i) && j == i + 2) {
      var m: nat :| i < m < j && Item(s, i, m, true) && Block(s, m, j, true);
      if !Character(s, i, m, true) {
        GreedyIsDerived(s, i + 2, m);
      }
      GreedyIsDerived(s, m, j);
      assert Item(s, i, m, false) && Block(s, m, j, false);
    }
  }

  /** The scanner only accepts comments of the grammar as written, ... */
  lemma AcceptedCommentsAreDerived(s: Bytes, i: nat)
    requires Opens(s, i) && Comment(s, i, 0).Some?
    ensures Derives(s, i, Comment(s, i, 0).value, false)
  {
    hide Comment, Block;
    var j := Comment(s, i, 0).value;
    CounterIsTheGreedyGrammar(s, i, j);
    GreedyIsDerived(s, i + 2, j);
  }

  /** ... but not all of them: the grammar derives slash, star, slash, star, slash by taking the middle slash for a character. */
  lemma NotAllDerivedAreAccepted()
    ensures var s := Chars("/*/*/"); Derives(s, 0, 5, false) && Comment(s, 0, 0) == None
  {
    hide Comment, Block;
    var s := Chars("/*/*/");
    CounterStep(s, 0, 0);
    CounterStep(s, 2, 1);
    AsciiDecodes(s, 4);
    CounterStep(s, 4, 2);
    AtTheEnd(s, 5, 2);
    AsciiDecodes(s, 2);
    JustClosed(s, 3);
    ThenBlock(s, 2, 3, 5);
  }

  lemma JustClosed(s: Bytes, i: nat)
    requires Closes(s, i)
    ensures Block(s, i, i + 2, false)
  {}

  lemma ThenBlock(s: Bytes, i: nat, m: nat, j: nat)
    requires i < m < j && Character(s, i, m, false) && Block(s, m, j, false)
    ensures Block(s, i, j, false)
  {
    assert Item(s, i, m, false);
  }

  // ----- the shortest derivation -----

  /** The end of the first closing delimiter from i on, if everything in front of it can be read. */
  function FirstClose(s: Bytes, i: nat): (j: Option<nat>)
    requires i <= |s|
    ensures j.Some? ==> i + 2 <= j.value <= |s|
    decreases |s| - i
  {
    if Closes(s, i) then Some(i + 2)
    else if PeekAt(s, i).Rune? then FirstClose(s, i + PeekAt(s, i).size)
    else None
  }

  /** From i on, the first delimiter is not an opening one. */
  predicate NoOpenFirst(s: Bytes, i: nat)
    requires i <= |s|
    decreases |s| - i
  {
    Closes(s, i) || (!Opens(s, i) && (PeekAt(s, i).Rune? ==> NoOpenFirst(s, i + PeekAt(s, i).size)))
  }

  lemma {:induction false} FirstCloseIsDerived(s: Bytes, i: nat)
    requires i <= |s| && FirstClose(s, i).Some?
    ensures Block(s, i, FirstClose(s, i).value, false)
    decreases |s| - i
  {
    if !Closes(s, i) {
      var m := i + PeekAt(s, i).size;
      FirstCloseIsDerived(s, m);
      ThenBlock(s, i, m, FirstClose(s, i).value);
    }
  }

  lemma {:induction false} DerivedIsNotShorter(s: Bytes, i: nat, j: nat)
    requires i <= |s| && Block(s, i, j, false)
    ensures FirstClose(s, i).Some? && FirstClose(s, i).value <= j
    decreases |s| - i
  {
    hide DecodeAt;
    if Closes(s, i) {
      BlockHasTwo(s, i, j);
    } else {
      var m: nat :| i < m < j && Item(s, i, m, false) && Block(s, m, j, false);
      if Character(s, i, m, false) {
        DerivedIsNotShorter(s, m, j);
      } else {
        DerivedIsNotShorter(s, i + 2, m);
        BehindOpening(s, i);
        BlockHasTwo(s, i + 2, m);
      }
    }
  }

  lemma BlockHasTwo(s: Bytes, i: nat, j: nat)
    requires Block(s, i, j, false)
    ensures i + 2 <= j
    decreases |s| - i
  {
    if !(Closes(s, i) && j == i + 2) {
      var m: nat :| i < m < j && Item(s, i, m, false) && Block(s, m, j, false);
      BlockHasTwo(s, m, j);
    }
  }

  /** The first closing delimiter from an opening one on is the first one behind it, or shares its star. */
  lemma BehindOpening(s: Bytes, i: nat)
    requires Opens(s, i)
    ensures FirstClose(s, i) == if Closes(s, i + 1) then Some(i + 3) else FirstClose(s, i + 2)
  {
    AsciiDecodes(s, i);
    AsciiDecodes(s, i + 1);
  }

  /** The shortest comment that the grammar as written derives ends at the first closing delimiter; there is none without one. */
  lemma ShortestDerivation(s: Bytes, i: nat)
    requires Opens(s, i)
    ensures match FirstClose(s, i + 2)
      case Some(f) => Derives(s, i, f, false) && forall j: nat :: Derives(s, i, j, false) ==> f <= j
      case None => forall j: nat :: !Derives(s, i, j, false)
  {
    hide Block, FirstClose;
    if FirstClose(s, i + 2).Some? { FirstCloseIsDerived(s, i + 2); }
    forall j: nat | Derives(s, i, j, false) ensures FirstClose(s, i + 2).Some? && FirstClose(s, i + 2).value <= j {
      DerivedIsNotShorter(s, i + 2, j);
    }
  }

  lemma {:induction false} CounterStopsAtFirstClose(s: Bytes, i: nat)
    requires i <= |s|
    ensures Comment(s, i, 1) == FirstClose(s, i) <==> FirstClose(s, i).None? || NoOpenFirst(s, i)
    decreases |s| - i
  {
    hide Comment, DecodeAt, Block;
    if i == |s| {
      AtTheEnd(s, i, 1);
    } else {
      CounterStep(s, i, 1);
      if Closes(s, i) {
      } else if Opens(s, i) {
        CounterPassesFirstClose(s, i);
      } else if PeekAt(s, i).Rune? {
        CounterStopsAtFirstClose(s, i + PeekAt(s, i).size);
      }
    }
  }

  /** Behind a nested opening the counter goes on past the first closing delimiter, or fails. */
  lemma CounterPassesFirstClose(s: Bytes, i: nat)
    requires Opens(s, i)
    ensures Comment(s, i, 1).Some? ==> FirstClose(s, i).Some? && FirstClose(s, i).value < Comment(s, i, 1).value
  {
    hide Comment, FirstClose, Block;
    CounterStep(s, i, 1);
    if Comment(s, i, 1).Some? {
      var m := CounterReadsBlock(s, i + 2, 2);
      GreedyIsDerived(s, i + 2, m);
      DerivedIsNotShorter(s, i + 2, m);
      BehindOpening(s, i);
      CommentEndsLater(s, m, 1);
      BlockHasTwo(s, i + 2, m);
    }
  }

  lemma CommentEndsLater(s: Bytes, i: nat, depth: int)
    requires i <= |s|
    ensures Comment(s, i, depth).Some? ==> i < Comment(s, i, depth).value
  {}

  /**
   * The scanner finds the shortest comment of the grammar as written exactly when no opening delimiter stands in front of
   * the first closing one (or there is no closing one at all, and both fail).
   */
  lemma CounterIsShortestUnlessNested(s: Bytes, i: nat)
    requires Opens(s, i)
    ensures Comment(s, i, 0) == FirstClose(s, i + 2) <==> FirstClose(s, i + 2).None? || NoOpenFirst(s, i + 2)
  {
    CounterStep(s, i, 0);
    hide Comment;
    CounterStopsAtFirstClose(s, i + 2);
  }
}
