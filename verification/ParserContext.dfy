// The parser as it is written: five parallel stacks, mode flags and a node store, updated in place by one
// handler per state. Every handler refines the machine's transition; the stack-empty errors never occur.
module ParserContext {
  import opened Basics
  import opened Tokens
  import opened Documents
  import opened Machine
  import opened ParserTable
  import opened ParserRep
  import opened ParserMoves

  /** A property is added when its key and its value can be decoded, and nothing else of the configuration changes. */
  lemma AddedProperty(e: Env, c: Config, t: Token)
    requires c.phase.Inside?
    ensures AddProperty(e, c, t).Some? <==> ValueOf(e.decode, c.ident, NO_TOKEN).Some? && ValueOf(e.decode, t, c.typ).Some?
    ensures AddProperty(e, c, t).Some? ==>
      var n := c.phase.open.node;
      var key := KeyText(ValueOf(e.decode, c.ident, NO_TOKEN).value.content);
      AddProperty(e, c, t).value == c.(phase := c.phase.(open := c.phase.open.(node :=
        n.(props := Put(n.props, key, ValueOf(e.decode, t, c.typ).value)))))
  {
    hide Put, KeyText;
  }

  class ParseContext {
    const env: Env
    var store: seq<Rec>
    var doc: seq<nat>
    var states: seq<ParserState>
    var childBlockSeenStack: seq<bool>
    var state: ParserState
    var node: seq<nat>
    var ident: Token
    var typeAnnot: Token
    var continuation: bool
    var ignoreNextNode: bool
    var ignoreNextArgProp: bool
    var ignoreChildren: int
    var childBlockSeen: bool
    var nodeStartOffsets: seq<nat>
    var lastNodeEnd: nat
    var lastNodeEndStack: seq<nat>
    var nodeIgnored: seq<bool>
    /** The configuration these fields represent. */
    ghost var abs: Config

    function Now(): Fields
      reads this
    {
      Fields(store, doc, states, childBlockSeenStack, state, node, ident, typeAnnot, continuation, ignoreNextNode,
             ignoreNextArgProp, ignoreChildren, childBlockSeen, nodeStartOffsets, lastNodeEnd, lastNodeEndStack, nodeIgnored)
    }

    ghost predicate Represents()
      reads this
    {
      Rep(Now(), abs)
    }

    /** Inside a node, with no annotation being read. */
    ghost predicate InNodeState(st: NodeState)
      reads this
    {
      Represents() && abs.phase.Inside? && abs.phase.st == st && abs.annotation.NoAnnotation?
    }

    constructor (env: Env)
      ensures this.env == env && Represents() && abs == INITIAL
    {
      this.env := env;
      store, doc, states, childBlockSeenStack, state, node := [], [], [], [], StateDocument, [];
      ident, typeAnnot := NO_TOKEN, NO_TOKEN;
      continuation, ignoreNextNode, ignoreNextArgProp, ignoreChildren, childBlockSeen := false, false, false, 0, false;
      nodeStartOffsets, lastNodeEnd, lastNodeEndStack, nodeIgnored := [], 0, [], [];
      abs := INITIAL;
      new;
      NoKids(store, 0, 0);
    }

    // ----- primitives -----

    method PushState(newState: ParserState)
      modifies `states, `childBlockSeenStack, `state, `childBlockSeen
      ensures states == old(states) + [old(state)] && state == newState
      ensures childBlockSeenStack == old(childBlockSeenStack) + [old(childBlockSeen)]
      ensures childBlockSeen == if newState == StateChildren then false else old(childBlockSeen)
    {
      states := states + [state];
      childBlockSeenStack := childBlockSeenStack + [childBlockSeen];
      state := newState;
      if newState == StateChildren {
        childBlockSeen := false;
      }
    }

    method PopState() returns (ok: bool)
      modifies `states, `childBlockSeenStack, `state, `childBlockSeen
      ensures ok <==> old(states) != []
      ensures ok ==> states == old(states)[..|old(states)| - 1] && state == old(states)[|old(states)| - 1]
      ensures ok && old(childBlockSeenStack) != [] ==>
                && childBlockSeenStack == old(childBlockSeenStack)[..|old(childBlockSeenStack)| - 1]
                && childBlockSeen == old(childBlockSeenStack)[|old(childBlockSeenStack)| - 1]
    {
      if |states| == 0 {
        return false;
      }
      state := states[|states| - 1];
      states := states[..|states| - 1];
      if |childBlockSeenStack| > 0 {
        childBlockSeen := childBlockSeenStack[|childBlockSeenStack| - 1];
        childBlockSeenStack := childBlockSeenStack[..|childBlockSeenStack| - 1];
      }
      return true;
    }

    /** Allocates a node, links it to the innermost open node or the document unless it is ignored, and pushes it. */
    method AddOrCreateNode(ignored: bool)
      requires forall i :: 0 <= i < |node| ==> node[i] < |store|
      modifies `store, `doc, `node, `nodeStartOffsets, `nodeIgnored
      ensures store == WithStarted(old(store), old(node), NEW_REC, ignored)
      ensures doc == StartedDoc(old(store), old(doc), old(node), ignored)
      ensures node == old(node) + [|old(store)|]
      ensures nodeStartOffsets == old(nodeStartOffsets) + [lastNodeEnd] && nodeIgnored == old(nodeIgnored) + [ignored]
    {
      var n := |store|;
      if !ignored {
        if |node| > 0 {
          var parent := node[|node| - 1];
          store := store[parent := store[parent].(children := store[parent].children + [n])];
        } else {
          doc := doc + [n];
        }
      }
      store := store + [NEW_REC];
      node := node + [n];
      nodeStartOffsets := nodeStartOffsets + [lastNodeEnd];
      nodeIgnored := nodeIgnored + [ignored];
    }

    method PopNode() returns (ok: bool)
      modifies `node, `nodeStartOffsets, `nodeIgnored
      ensures ok <==> old(node) != []
      ensures ok && |old(nodeStartOffsets)| == |old(nodeIgnored)| == |old(node)| ==>
                && node == old(node)[..|old(node)| - 1]
                && nodeStartOffsets == old(nodeStartOffsets)[..|old(node)| - 1]
                && nodeIgnored == old(nodeIgnored)[..|old(node)| - 1]
    {
      if |node| == 0 {
        return false;
      }
      node := node[..|node| - 1];
      if |nodeStartOffsets| > 0 {
        nodeStartOffsets := nodeStartOffsets[..|nodeStartOffsets| - 1];
      }
      if |nodeIgnored| > 0 {
        nodeIgnored := nodeIgnored[..|nodeIgnored| - 1];
      }
      return true;
    }

    method EnterChildrenBlock(braceOffset: nat)
      modifies `lastNodeEndStack, `lastNodeEnd
      ensures lastNodeEndStack == old(lastNodeEndStack) + [old(lastNodeEnd)] && lastNodeEnd == braceOffset + 1
    {
      lastNodeEndStack := lastNodeEndStack + [lastNodeEnd];
      lastNodeEnd := braceOffset + 1;
    }

    method LeaveChildrenBlock()
      modifies `lastNodeEndStack, `lastNodeEnd
      ensures old(lastNodeEndStack) != [] ==>
                && lastNodeEnd == old(lastNodeEndStack)[|old(lastNodeEndStack)| - 1]
                && lastNodeEndStack == old(lastNodeEndStack)[..|old(lastNodeEndStack)| - 1]
    {
      if |lastNodeEndStack| > 0 {
        lastNodeEnd := lastNodeEndStack[|lastNodeEndStack| - 1];
        lastNodeEndStack := lastNodeEndStack[..|lastNodeEndStack| - 1];
      }
    }

    /** Pops the innermost node and state and records the raw segment of a node that is not slashdashed. */
    method PopNodeAndStateAt(end: nat) returns (ok: bool)
      requires |nodeStartOffsets| == |nodeIgnored| == |node| && |childBlockSeenStack| == |states|
      requires node != [] ==> node[|node| - 1] < |store|
      modifies `store, `node, `nodeStartOffsets, `nodeIgnored, `lastNodeEnd, `states, `childBlockSeenStack, `state, `childBlockSeen
      ensures ok <==> old(node) != [] && old(states) != []
      ensures ok ==>
                var t, id := |old(node)| - 1, old(node)[|old(node)| - 1];
                && (var start := old(nodeStartOffsets)[t];
                    var raw := if !old(nodeIgnored)[t] && |env.source| > 0 && end > start && end <= |env.source|
                               then Some(RawSegment(env.source, start, end)) else old(store)[id].raw;
                    store == old(store)[id := old(store)[id].(raw := raw)])
                && node == old(node)[..t] && nodeStartOffsets == old(nodeStartOffsets)[..t] && nodeIgnored == old(nodeIgnored)[..t]
                && lastNodeEnd == end
                && states == old(states)[..|old(states)| - 1] && state == old(states)[|old(states)| - 1]
                && childBlockSeenStack == old(childBlockSeenStack)[..|old(states)| - 1]
                && childBlockSeen == old(childBlockSeenStack)[|old(states)| - 1]
    {
      var startOffset, ignored := 0, false;
      if |nodeStartOffsets| > 0 {
        startOffset := nodeStartOffsets[|nodeStartOffsets| - 1];
      }
      if |nodeIgnored| > 0 {
        ignored := nodeIgnored[|nodeIgnored| - 1];
      }
      ok := PopState();
      if !ok {
        return;
      }
      var id := if |node| > 0 then node[|node| - 1] else 0;
      ok := PopNode();
      if !ok {
        return;
      }
      if !ignored && |env.source| > 0 && end > startOffset && end <= |env.source| {
        store := store[id := store[id].(raw := Some(RawSegment(env.source, startOffset, end)))];
      }
      lastNodeEnd := end;
    }

    /** popNodeAndStateAt, with all the fields after it as one value. */
    method PopEnded(end: nat) returns (ok: bool)
      requires |nodeStartOffsets| == |nodeIgnored| == |node| && |childBlockSeenStack| == |states|
      requires node != [] && node[|node| - 1] < |store| && states != []
      modifies `store, `node, `nodeStartOffsets, `nodeIgnored, `lastNodeEnd, `states, `childBlockSeenStack, `state, `childBlockSeen
      ensures ok && Now() == EndedFields(old(Now()), EndedRaw(env, old(Now()), end), end)
    {
      ok := PopNodeAndStateAt(end);
    }

    /** A new node, named and typed, with all the fields after it as one value. */
    method BeginOne(t: Token, ignored: bool) returns (ok: bool)
      requires (forall i :: 0 <= i < |node| ==> node[i] < |store|) && (ignoreNextNode ==> ignored)
      modifies `store, `doc, `node, `nodeStartOffsets, `nodeIgnored, `typeAnnot, `ignoreNextNode, `states, `childBlockSeenStack, `state, `childBlockSeen
      ensures ok <==> ValueOf(env.decode, t, NO_TOKEN).Some?
      ensures ok ==> Now() == StartedFields(old(Now()),
        NEW_REC.(name := ValueOf(env.decode, t, NO_TOKEN), typ := if old(typeAnnot).Valid() then old(typeAnnot).data else []), ignored)
    {
      ok := BeginNode(t, ignored);
    }

    method LeaveOne() returns (ok: bool)
      requires states != [] && childBlockSeenStack != [] && lastNodeEndStack != []
      modifies `ignoreChildren, `childBlockSeen, `lastNodeEndStack, `lastNodeEnd, `states, `childBlockSeenStack, `state
      ensures ok && Now() == LeftFields(old(Now()))
    {
      ok := LeaveBlock();
    }

    method Unstack() returns (ok: bool)
      requires states != [] && childBlockSeenStack != []
      modifies `states, `childBlockSeenStack, `state, `childBlockSeen
      ensures ok && Now() == UnstackedFields(old(Now()))
    {
      ok := PopState();
    }

    /** The common part of the BraceOpen handlers. */
    method EnterBlock(t: Token)
      modifies `ignoreNextArgProp, `ignoreChildren, `childBlockSeen, `lastNodeEndStack, `lastNodeEnd, `states, `childBlockSeenStack, `state
      ensures !ignoreNextArgProp && ignoreChildren == old(ignoreChildren) + if old(ignoreNextArgProp) || old(ignoreChildren) > 0 then 1 else 0
      ensures lastNodeEndStack == old(lastNodeEndStack) + [old(lastNodeEnd)] && lastNodeEnd == t.offset + 1
      ensures states == old(states) + [old(state)] && state == StateChildren
      ensures childBlockSeenStack == old(childBlockSeenStack) + [true] && !childBlockSeen
    {
      if ignoreNextArgProp || ignoreChildren > 0 {
        ignoreNextArgProp := false;
        ignoreChildren := ignoreChildren + 1;
      }
      childBlockSeen := true;
      EnterChildrenBlock(t.offset);
      PushState(StateChildren);
    }

    /** The common part of the BraceClose handlers. */
    method LeaveBlock() returns (ok: bool)
      requires states != [] && childBlockSeenStack != [] && lastNodeEndStack != []
      modifies `ignoreChildren, `childBlockSeen, `lastNodeEndStack, `lastNodeEnd, `states, `childBlockSeenStack, `state
      ensures ok
      ensures ignoreChildren == if old(ignoreChildren) > 0 then old(ignoreChildren) - 1 else old(ignoreChildren)
      ensures lastNodeEnd == old(lastNodeEndStack)[|old(lastNodeEndStack)| - 1]
      ensures lastNodeEndStack == old(lastNodeEndStack)[..|old(lastNodeEndStack)| - 1]
      ensures states == old(states)[..|old(states)| - 1] && state == old(states)[|old(states)| - 1]
      ensures childBlockSeenStack == old(childBlockSeenStack)[..|old(childBlockSeenStack)| - 1]
      ensures childBlockSeen == old(childBlockSeenStack)[|old(childBlockSeenStack)| - 1]
    {
      if ignoreChildren > 0 {
        ignoreChildren := ignoreChildren - 1;
      }
      LeaveChildrenBlock();
      ok := PopState();
    }

    /** The common part of the ClassIdentifier handlers: a new node, its name, its type, and the node state. */
    method BeginNode(t: Token, ignored: bool) returns (ok: bool)
      requires forall i :: 0 <= i < |node| ==> node[i] < |store|
      modifies `store, `doc, `node, `nodeStartOffsets, `nodeIgnored, `typeAnnot, `ignoreNextNode, `states, `childBlockSeenStack, `state, `childBlockSeen
      ensures ok <==> ValueOf(env.decode, t, NO_TOKEN).Some?
      ensures ok ==>
                var typ := if old(typeAnnot).Valid() then old(typeAnnot).data else [];
                && store == WithStarted(old(store), old(node), NEW_REC.(name := ValueOf(env.decode, t, NO_TOKEN), typ := typ), ignored)
                && doc == StartedDoc(old(store), old(doc), old(node), ignored)
                && node == old(node) + [|old(store)|]
                && nodeStartOffsets == old(nodeStartOffsets) + [lastNodeEnd] && nodeIgnored == old(nodeIgnored) + [ignored]
                && typeAnnot == (if old(typeAnnot).Valid() then NO_TOKEN else old(typeAnnot))
                && ignoreNextNode == (if ignored then false else old(ignoreNextNode))
                && states == old(states) + [old(state)] && state == StateNode
                && childBlockSeenStack == old(childBlockSeenStack) + [old(childBlockSeen)] && childBlockSeen == old(childBlockSeen)
    {
      AddOrCreateNode(ignored);
      if ignored {
        ignoreNextNode := false;
      }
      var n := node[|node| - 1];
      var name := ValueOf(env.decode, t, NO_TOKEN);
      if name.None? {
        return false;
      }
      store := store[n := store[n].(name := name, raw := None)];
      if typeAnnot.Valid() {
        store := store[n := store[n].(typ := typeAnnot.data)];
        typeAnnot := NO_TOKEN;
      }
      PushState(StateNode);
      return true;
    }

    // ----- moves -----

    method EndCurrentNode(end: nat) returns (ok: bool)
      requires Represents() && abs.phase.Inside? && abs.annotation.NoAnnotation?
      modifies this
      ensures ok && Represents() && abs == EndNode(env, old(abs), end)
    {
      EndRep(env, Now(), abs, end);
      hide Rep, EndNode, EndedFields, EndedRaw;
      ok := PopEnded(end);
      abs := EndNode(env, abs, end);
    }

    method OpenChildBlock(t: Token)
      requires Represents() && abs.phase.Inside? && abs.annotation.NoAnnotation?
      modifies this
      ensures Represents() && abs == OpenBlock(old(abs), t)
    {
      OpenRep(Now(), abs, t);
      hide Rep, OpenBlock;
      EnterBlock(t);
      abs := OpenBlock(abs, t);
    }

    method CloseChildBlock() returns (ok: bool)
      requires Represents() && abs.phase.Between? && abs.blocks != [] && abs.annotation.NoAnnotation?
      modifies this
      ensures ok && Represents() && abs == CloseBlock(old(abs))
    {
      CloseRep(Now(), abs);
      hide Rep, CloseBlock, LeftFields;
      ok := LeaveOne();
      abs := CloseBlock(abs);
    }

    /** A '}' after a node that its state ends: the node goes first, then the block around it, if there is one. */
    method CloseNodeAndBlock(t: Token) returns (ok: bool)
      requires Represents() && abs.phase.Inside? && abs.annotation.NoAnnotation?
      modifies this
      ensures ok <==> EndNodeAndBlock(env, old(abs), t).Some?
      ensures ok ==> Represents() && abs == EndNodeAndBlock(env, old(abs), t).value
    {
      ok := EndCurrentNode(t.offset);
      if state == StateChildren {
        ok := CloseChildBlock();
      } else {
        ok := false;
      }
    }

    method AddArgumentToken(t: Token) returns (ok: bool)
      requires Represents() && abs.phase.Inside? && abs.annotation.NoAnnotation?
      modifies this
      ensures ok <==> AddArgument(env, old(abs), t).Some?
      ensures ok ==> Represents() && abs == AddArgument(env, old(abs), t).value
    {
      var v := ValueOf(env.decode, t, typeAnnot);
      if v.None? {
        return false;
      }
      InsideStacks(Now(), abs);
      hide Rep;
      var id := node[|node| - 1];
      var r := store[id].(args := store[id].args + [v.value], raw := None);
      ghost var n := abs.phase.open.node.(args := abs.phase.open.node.args + [v.value]);
      EntryRep(Now(), abs, n, r);
      store := store[id := r];
      abs := abs.(phase := abs.phase.(open := abs.phase.open.(node := n)));
      return true;
    }

    method AddPropertyToken(t: Token) returns (ok: bool)
      requires Represents() && abs.phase.Inside? && abs.annotation.NoAnnotation?
      modifies this
      ensures ok <==> AddProperty(env, old(abs), t).Some?
      ensures ok ==> Represents() && abs == AddProperty(env, old(abs), t).value
    {
      AddedProperty(env, abs, t);
      hide AddProperty;
      var key := ValueOf(env.decode, ident, NO_TOKEN);
      if key.None? {
        return false;
      }
      var v := ValueOf(env.decode, t, typeAnnot);
      if v.None? {
        return false;
      }
      InsideStacks(Now(), abs);
      hide Rep;
      var id := node[|node| - 1];
      var r := store[id].(props := Put(store[id].props, KeyText(key.value.content), v.value), raw := None);
      ghost var n := abs.phase.open.node.(props := Put(abs.phase.open.node.props, KeyText(key.value.content), v.value));
      EntryRep(Now(), abs, n, r);
      store := store[id := r];
      abs := abs.(phase := abs.phase.(open := abs.phase.open.(node := n)));
      return true;
    }

    method StartNamedNode(t: Token, ignored: bool) returns (ok: bool)
      requires Represents() && abs.phase.Between? && abs.annotation.NoAnnotation?
      requires ignored == (abs.skipNode || InDropped(abs.blocks))
      modifies this
      ensures ok <==> StartNode(env, old(abs), t).Some?
      ensures ok ==> Represents() && abs == StartNode(env, old(abs), t).value
    {
      var d := StartNode(env, abs, t);
      ghost var r := NEW_REC.(name := ValueOf(env.decode, t, NO_TOKEN), typ := if typeAnnot.Valid() then typeAnnot.data else []);
      StartFacts(env, Now(), abs, t, r);
      hide Rep, StartNode, StartedFields, ValueOf;
      ok := BeginOne(t, ignored);
      if ok { abs := d.value; }
    }

    /** A slip into another state of the same node. */
    method SetState(st: NodeState)
      requires Represents() && abs.phase.Inside? && abs.annotation.NoAnnotation?
      modifies `state, `abs
      ensures Represents() && abs == Goto(old(abs), st)
    {
      GotoRep(Now(), abs, st);
      hide Rep;
      state := OfNodeState(st);
      abs := Goto(abs, st);
    }

    // Each of these is one assignment; the configuration follows the field.

    method SetContinuation(b: bool)
      requires Represents()
      modifies `continuation, `abs
      ensures Represents() && continuation == b && abs == old(abs).(cont := b)
    {
      ModesRep(Now(), abs, b);
      hide Rep;
      continuation := b;
      abs := abs.(cont := b);
    }

    method SetIgnoreNextNode(b: bool)
      requires Represents()
      modifies `ignoreNextNode, `abs
      ensures Represents() && ignoreNextNode == b && abs == old(abs).(skipNode := b)
    {
      ModesRep(Now(), abs, b);
      hide Rep;
      ignoreNextNode := b;
      abs := abs.(skipNode := b);
    }

    method SetIgnoreNextArgProp(b: bool)
      requires Represents()
      modifies `ignoreNextArgProp, `abs
      ensures Represents() && ignoreNextArgProp == b && abs == old(abs).(skipEntry := b)
    {
      ModesRep(Now(), abs, b);
      hide Rep;
      ignoreNextArgProp := b;
      abs := abs.(skipEntry := b);
    }

    method SetIdent(t: Token)
      requires Represents()
      modifies `ident, `abs
      ensures Represents() && ident == t && abs == old(abs).(ident := t)
    {
      PendingRep(Now(), abs, t);
      hide Rep;
      ident := t;
      abs := abs.(ident := t);
    }

    method SetTypeAnnot(t: Token)
      requires Represents()
      modifies `typeAnnot, `abs
      ensures Represents() && typeAnnot == t && abs == old(abs).(typ := t)
    {
      PendingRep(Now(), abs, t);
      hide Rep;
      typeAnnot := t;
      abs := abs.(typ := t);
    }

    method BeginAnnotation()
      requires Represents() && abs.annotation.NoAnnotation?
      modifies `states, `childBlockSeenStack, `state, `childBlockSeen, `abs
      ensures Represents() && abs == old(abs).(annotation := Wanted)
    {
      AnnotationRep(Now(), abs);
      hide Rep;
      PushState(StateTypeAnnot);
      abs := abs.(annotation := Wanted);
    }

    method EndAnnotation() returns (ok: bool)
      requires Represents() && abs.annotation.Got?
      modifies `states, `childBlockSeenStack, `state, `childBlockSeen, `abs
      ensures ok && Represents() && abs == old(abs).(annotation := NoAnnotation)
    {
      AnnotatedStacks(Now(), abs);
      hide Rep, UnstackedFields;
      ok := Unstack();
      abs := abs.(annotation := NoAnnotation);
    }

    method NameAnnotation(t: Token)
      requires Represents() && abs.annotation.Wanted?
      modifies `state, `typeAnnot, `abs
      ensures Represents() && abs == old(abs).(typ := t, annotation := Got)
    {
      SetTypeAnnot(t);
      GotNameRep(Now(), abs);
      hide Rep;
      state := StateTypeDone;
      abs := abs.(annotation := Got);
    }

    /** The pending identifier becomes an argument, unless a slashdash takes it. */
    method CommitIdent() returns (ok: bool)
      requires Represents() && abs.phase.Inside? && abs.annotation.NoAnnotation?
      modifies this
      ensures ok <==> Commit(env, old(abs)).Some?
      ensures ok ==> Represents() && abs == Commit(env, old(abs)).value
    {
      FieldsAgree();
      hide Rep, ValueOf;
      if ignoreNextArgProp {
        SetIgnoreNextArgProp(false);
      } else {
        ok := AddArgumentToken(ident);
        if !ok {
          return;
        }
      }
      SetTypeAnnot(NO_TOKEN);
      SetIdent(NO_TOKEN);
      ok := true;
    }

    method CommitPendingIdent() returns (ok: bool)
      requires Represents() && abs.phase.Inside? && abs.annotation.NoAnnotation?
      modifies this
      ensures ok <==> CommitPending(env, old(abs)).Some?
      ensures ok ==> Represents() && abs == CommitPending(env, old(abs)).value
    {
      FieldsAgree();
      hide Rep, Commit;
      ok := true;
      if ident.Valid() {
        ok := CommitIdent();
      }
    }

    /** The flags, the pending tokens and the current state read the same in the fields and in the configuration. */
    lemma FieldsAgree()
      requires Represents()
      ensures ident == abs.ident && typeAnnot == abs.typ && continuation == abs.cont && ignoreNextNode == abs.skipNode
      ensures ignoreNextArgProp == abs.skipEntry && childBlockSeen == (abs.phase.Inside? && abs.phase.seen)
      ensures (ignoreChildren > 0) == InDropped(abs.blocks)
      ensures abs.annotation.Wanted? <==> state == StateTypeAnnot
      ensures abs.annotation.Got? <==> state == StateTypeDone
      ensures abs.annotation.NoAnnotation? ==> state == BaseState(abs)
    {
      hide RepTree;
      DroppedIsCounted(abs.blocks);
    }

    // ----- handlers, one method per state; key is what Lookup found -----

    method InDocument(key: TokenID, t: Token) returns (ok: bool)
      requires Represents() && abs.phase.Between? && abs.annotation.NoAnnotation? && abs.blocks == []
      requires IsToken(t.id) && Lookup(StateDocument, t.id) == Some(key)
      modifies this
      ensures ok <==> BetweenNodes(env, old(abs), t).Some?
      ensures ok ==> Represents() && abs == BetweenNodes(env, old(abs), t).value
    {
      LookupDocument(t.id);
      FieldsAgree();
      hide Rep, Lookup, StartNode;
      ok := true;
      if key.Whitespace? || key.ClassComment? {
      } else if key.ClassIdentifier? {
        ok := StartNamedNode(t, ignoreNextNode);
      } else if key.ParensOpen? {
        BeginAnnotation();
      } else if key.ClassTerminator? {
        if typeAnnot.Valid() || (ignoreNextNode && t.id == EOF) {
          ok := false;
        }
      } else if key.TokenComment? {
        if typeAnnot.Valid() {
          ok := false;
        } else {
          SetIgnoreNextNode(true);
        }
      } else if key.Continuation? {
        SetContinuation(true);
      } else {
        assert false;
      }
    }

    method InChildren(key: TokenID, t: Token) returns (ok: bool)
      requires Represents() && abs.phase.Between? && abs.annotation.NoAnnotation? && abs.blocks != []
      requires IsToken(t.id) && Lookup(StateChildren, t.id) == Some(key)
      modifies this
      ensures ok <==> BetweenNodes(env, old(abs), t).Some?
      ensures ok ==> Represents() && abs == BetweenNodes(env, old(abs), t).value
    {
      LookupChildren(t.id);
      FieldsAgree();
      hide Rep, Lookup, StartNode, CloseBlock;
      ok := true;
      if key.Whitespace? || key.ClassComment? || key.Newline? || key.Semicolon? {
      } else if key.ClassIdentifier? {
        ok := StartNamedNode(t, ignoreNextNode || ignoreChildren > 0);
      } else if key.ParensOpen? {
        BeginAnnotation();
      } else if key.TokenComment? {
        if typeAnnot.Valid() {
          ok := false;
        } else {
          SetIgnoreNextNode(true);
        }
      } else if key.Continuation? {
        SetContinuation(true);
      } else if key.BraceClose? {
        if ignoreNextNode {
          ok := false;
        } else {
          ok := CloseChildBlock();
        }
      } else {
        assert false;
      }
    }

    method InTypeAnnot(key: TokenID, t: Token) returns (ok: bool)
      requires Represents() && abs.annotation.Wanted?
      requires IsToken(t.id) && Lookup(StateTypeAnnot, t.id) == Some(key)
      modifies this
      ensures ok <==> InAnnotation(old(abs), t).Some?
      ensures ok ==> Represents() && abs == InAnnotation(old(abs), t).value
    {
      LookupAnnotation(t.id);
      hide Rep, Lookup;
      ok := true;
      if key.Whitespace? || key.ClassComment? {
      } else if key.BareIdentifier? || key.ClassString? {
        NameAnnotation(t);
      } else {
        assert false;
      }
    }

    method InTypeDone(key: TokenID, t: Token) returns (ok: bool)
      requires Represents() && abs.annotation.Got?
      requires IsToken(t.id) && Lookup(StateTypeDone, t.id) == Some(key)
      modifies this
      ensures ok <==> InAnnotation(old(abs), t).Some?
      ensures ok ==> Represents() && abs == InAnnotation(old(abs), t).value
    {
      LookupAnnotation(t.id);
      hide Rep, Lookup;
      ok := true;
      if key.Whitespace? || key.ClassComment? {
      } else if key.ParensClose? {
        ok := EndAnnotation();
      } else {
        assert false;
      }
    }

    /** In terminator handlers a continuation is never pending: the token has cleared it. */
    method InStateNode(key: TokenID, t: Token) returns (ok: bool)
      requires InNodeState(AtNode) && (abs.cont ==> t.id.Whitespace? || IsComment(t.id))
      requires IsToken(t.id) && Lookup(StateNode, t.id) == Some(key)
      modifies this
      ensures ok <==> InNode(env, old(abs), t).Some?
      ensures ok ==> Represents() && abs == InNode(env, old(abs), t).value
    {
      LookupNode(t.id);
      FieldsAgree();
      hide Rep, Lookup, EndNode, OpenBlock, EndNodeAndBlock;
      ok := true;
      if key.Whitespace? {
        SetState(AtParams);
      } else if key.ClassTerminator? {
        assert !continuation;
        ok := EndCurrentNode(TokenEnd(env, t));
      } else if key.Continuation? {
        SetContinuation(true);
      } else if key.BraceOpen? {
        OpenChildBlock(t);
      } else if key.BraceClose? {
        ok := CloseNodeAndBlock(t);
      } else if key.Equals? {
        ok := false;
      } else {
        assert false;
      }
    }

    /** The value handlers of stateNodeParams. */
    method TakeFirstEntry(t: Token) returns (ok: bool)
      requires Represents() && abs.phase.Inside? && abs.annotation.NoAnnotation?
      modifies this
      ensures ok <==> FirstEntry(env, old(abs), t).Some?
      ensures ok ==> Represents() && abs == FirstEntry(env, old(abs), t).value
    {
      FieldsAgree();
      hide Rep, Commit;
      if childBlockSeen {
        return false;
      }
      if t.id == SuffixedDecimal {
        SetTypeAnnot(NO_TOKEN);
        SetIdent(t);
        ok := CommitIdent();
      } else {
        SetIdent(t);
        SetState(AtArgProp);
        ok := true;
      }
    }

    method TerminateParams(t: Token) returns (ok: bool)
      requires Represents() && abs.phase.Inside? && abs.annotation.NoAnnotation? && !abs.cont && IsTerminator(t.id)
      modifies this
      ensures ok <==> EndParams(env, old(abs), t).Some?
      ensures ok ==> Represents() && abs == EndParams(env, old(abs), t).value
    {
      FieldsAgree();
      hide Rep, EndNode;
      assert !continuation;
      if ignoreNextArgProp {
        ok := !(t.id == EOF || t.id == Semicolon);
      } else if typeAnnot.Valid() {
        ok := false;
      } else {
        ok := EndCurrentNode(TokenEnd(env, t));
      }
    }

    method InStateNodeParams(key: TokenID, t: Token) returns (ok: bool)
      requires InNodeState(AtParams) && (abs.cont ==> t.id.Whitespace? || IsComment(t.id))
      requires IsToken(t.id) && Lookup(StateNodeParams, t.id) == Some(key)
      modifies this
      ensures ok <==> InParams(env, old(abs), t).Some?
      ensures ok ==> Represents() && abs == InParams(env, old(abs), t).value
    {
      ParamsByKey(env, abs, t, key);
      FieldsAgree();
      hide Rep, Lookup, OpenBlock, FirstEntry, EndParams, InParams, IsTerminator, IsToken;
      ok := true;
      if key.Whitespace? || key.MultiLineComment? {
      } else if key.Equals? {
        ok := false;
      } else if key.TokenComment? {
        if typeAnnot.Valid() {
          ok := false;
        } else {
          SetIgnoreNextArgProp(true);
        }
      } else if key.SingleLineComment? {
        if !continuation {
          SetState(AtEnd);
        }
      } else if key.Continuation? {
        SetContinuation(true);
      } else if key.ParensOpen? {
        BeginAnnotation();
      } else if key.BareIdentifier? || key.ClassString? || key.ClassNonStringValue? || key.SuffixedDecimal? {
        ok := TakeFirstEntry(t);
      } else if key.BraceOpen? {
        OpenChildBlock(t);
      } else if key.ClassTerminator? {
        ok := TerminateParams(t);
      } else {
        assert false;
      }
    }

    method InStateNodeEnd(key: TokenID, t: Token) returns (ok: bool)
      requires InNodeState(AtEnd) && (abs.cont ==> t.id.Whitespace? || IsComment(t.id))
      requires IsToken(t.id) && Lookup(StateNodeEnd, t.id) == Some(key)
      modifies this
      ensures ok <==> InEnd(env, old(abs), t).Some?
      ensures ok ==> Represents() && abs == InEnd(env, old(abs), t).value
    {
      LookupNodeEnd(t.id);
      FieldsAgree();
      hide Rep, Lookup, EndNode, EndNodeAndBlock;
      ok := true;
      if key.Whitespace? {
      } else if key.ClassEndOfLine? {
        assert !continuation;
        if ignoreNextArgProp {
          SetState(AtParams);
        } else {
          ok := EndCurrentNode(TokenEnd(env, t));
        }
      } else if key.BraceClose? {
        ok := CloseNodeAndBlock(t);
      } else {
        assert false;
      }
    }

    /** An '=' after an unannotated identifier turns it into a property key. */
    method AcceptKey(t: Token) returns (ok: bool)
      requires Represents() && abs.phase.Inside? && abs.annotation.NoAnnotation?
      modifies this
      ensures ok <==> AcceptEquals(old(abs)).Some?
      ensures ok ==> Represents() && abs == AcceptEquals(old(abs)).value
    {
      FieldsAgree();
      IdentifierClass(ident.id);
      hide Rep;
      if typeAnnot.Valid() || ClassIdentifier !in Classes(ident.id) {
        ok := false;
      } else {
        SetState(AtPropValue);
        ok := true;
      }
    }

    /** The handlers shared by stateArgProp and stateArgPropPostWS for terminators and braces. */
    method LeaveArgProp(t: Token) returns (ok: bool)
      requires Represents() && abs.phase.Inside? && abs.annotation.NoAnnotation?
      modifies this
      ensures ok <==> CommitAndLeave(env, old(abs), t).Some?
      ensures ok ==> Represents() && abs == CommitAndLeave(env, old(abs), t).value
    {
      FieldsAgree();
      CommitStays(env, abs);
      hide Rep, CommitPending, EndNode, OpenBlock, EndNodeAndBlock;
      if t.id == BraceOpen && ident.Valid() && childBlockSeen {
        return false;
      }
      ok := CommitPendingIdent();
      if !ok {
        return;
      }
      if IsTerminator(t.id) {
        ok := EndCurrentNode(TokenEnd(env, t));
      } else if t.id == BraceOpen {
        OpenChildBlock(t);
      } else if t.id == BraceClose {
        ok := CloseNodeAndBlock(t);
      } else {
        ok := false;
      }
    }

    method InStateArgProp(key: TokenID, t: Token) returns (ok: bool)
      requires InNodeState(AtArgProp) && (abs.cont ==> t.id.Whitespace? || IsComment(t.id))
      requires IsToken(t.id) && Lookup(StateArgProp, t.id) == Some(key)
      modifies this
      ensures ok <==> InArgProp(env, old(abs), t).Some?
      ensures ok ==> Represents() && abs == InArgProp(env, old(abs), t).value
    {
      ArgPropByKey(env, abs, t, key);
      FieldsAgree();
      CommitStays(env, abs);
      hide Rep, Lookup, Commit, CommitAndLeave, AcceptEquals, InArgProp, IsToken;
      ok := true;
      if key.TokenComment? {
        ok := CommitIdent();
        if ok {
          SetIgnoreNextArgProp(true);
        }
      } else if key.Equals? {
        ok := AcceptKey(t);
      } else if key.Whitespace? {
        SetState(AtPostWS);
      } else if key.Continuation? {
        SetContinuation(true);
        SetState(AtPostWS);
      } else if key.ClassValue? {
        if ident.Valid() {
          ok := false;
        } else {
          SetIdent(t);
        }
      } else if key.BraceOpen? || key.BraceClose? || key.ClassTerminator? {
        ok := LeaveArgProp(t);
      } else {
        assert false;
      }
    }

    method TakeNextEntry(t: Token) returns (ok: bool)
      requires Represents() && abs.phase.Inside? && abs.annotation.NoAnnotation?
      modifies this
      ensures ok <==> NextEntry(env, old(abs), t).Some?
      ensures ok ==> Represents() && abs == NextEntry(env, old(abs), t).value
    {
      CommitStays(env, abs);
      hide Rep, Commit;
      ok := CommitIdent();
      if ok {
        if t.id == ParensOpen {
          SetState(AtParams);
          BeginAnnotation();
        } else {
          SetIdent(t);
          SetState(AtArgProp);
        }
      }
    }

    method CommitBeforeComment(t: Token) returns (ok: bool)
      requires Represents() && abs.phase.Inside? && abs.annotation.NoAnnotation?
      modifies this
      ensures ok <==> BeforeComment(env, old(abs), t).Some?
      ensures ok ==> Represents() && abs == BeforeComment(env, old(abs), t).value
    {
      CommitStays(env, abs);
      hide Rep, CommitPending;
      ok := CommitPendingIdent();
      if ok {
        if t.id == TokenComment {
          SetIgnoreNextArgProp(true);
          SetState(AtParams);
        } else {
          SetState(AtEnd);
        }
      }
    }

    /** The tokens of stateArgPropPostWS that decide what the pending identifier was. */
    method DecideIdent(t: Token) returns (ok: bool)
      requires InNodeState(AtPostWS) && (abs.cont ==> t.id.Whitespace? || IsComment(t.id))
      requires IsValue(t.id) || t.id.ParensOpen? || t.id.TokenComment? || t.id.SingleLineComment?
      modifies this
      ensures ok <==> InPostWS(env, old(abs), t).Some?
      ensures ok ==> Represents() && abs == InPostWS(env, old(abs), t).value
    {
      FieldsAgree();
      hide Rep, NextEntry, BeforeComment, CommitAndLeave;
      if IsValue(t.id) || t.id == ParensOpen {
        ok := TakeNextEntry(t);
      } else if t.id == SingleLineComment && continuation {
        ok := true;
      } else {
        ok := CommitBeforeComment(t);
      }
    }

    method InStateArgPropPostWS(key: TokenID, t: Token) returns (ok: bool)
      requires InNodeState(AtPostWS) && (abs.cont ==> t.id.Whitespace? || IsComment(t.id))
      requires IsToken(t.id) && Lookup(StateArgPropPostWS, t.id) == Some(key)
      modifies this
      ensures ok <==> InPostWS(env, old(abs), t).Some?
      ensures ok ==> Represents() && abs == InPostWS(env, old(abs), t).value
    {
      PostWSByKey(env, abs, t, key);
      FieldsAgree();
      hide Rep, Lookup, AcceptEquals, InPostWS, CommitAndLeave, IsToken;
      ok := true;
      if key.Whitespace? || key.MultiLineComment? {
      } else if key.Equals? {
        ok := AcceptKey(t);
      } else if key.ClassValue? || key.ParensOpen? || key.TokenComment? || key.SingleLineComment? {
        ok := DecideIdent(t);
      } else if key.Continuation? {
        SetContinuation(true);
      } else if key.BraceOpen? || key.BraceClose? || key.ClassTerminator? {
        ok := LeaveArgProp(t);
      } else {
        assert false;
      }
    }

    method TakePropertyValue(t: Token) returns (ok: bool)
      requires Represents() && abs.phase.Inside? && abs.annotation.NoAnnotation?
      modifies this
      ensures ok <==> PropertyValue(env, old(abs), t).Some?
      ensures ok ==> Represents() && abs == PropertyValue(env, old(abs), t).value
    {
      FieldsAgree();
      PropertyStays(env, abs, t);
      hide Rep, AddProperty;
      if ignoreNextArgProp {
        SetIgnoreNextArgProp(false);
      } else {
        ok := AddPropertyToken(t);
        if !ok {
          return;
        }
      }
      SetTypeAnnot(NO_TOKEN);
      SetIdent(NO_TOKEN);
      SetState(AtNode);
      ok := true;
    }

    method InStatePropertyValue(key: TokenID, t: Token) returns (ok: bool)
      requires InNodeState(AtPropValue)
      requires IsToken(t.id) && Lookup(StatePropertyValue, t.id) == Some(key)
      modifies this
      ensures ok <==> InPropValue(env, old(abs), t).Some?
      ensures ok ==> Represents() && abs == InPropValue(env, old(abs), t).value
    {
      LookupPropertyValue(t.id);
      FieldsAgree();
      hide Rep, Lookup, PropertyValue;
      ok := true;
      if key.Whitespace? || key.MultiLineComment? || key.ClassComment? {
      } else if key.Continuation? {
        SetContinuation(true);
      } else if key.ParensOpen? {
        BeginAnnotation();
      } else if key.ClassValue? {
        ok := TakePropertyValue(t);
      } else {
        assert false;
      }
    }

    // ----- dispatch -----

    /** Main result: parsing one token is one step of the machine, with the same verdict. */
    method Parse(t: Token) returns (ok: bool)
      requires Represents() && IsToken(t.id)
      modifies this
      ensures ok <==> Step(env, old(abs), t).Some?
      ensures ok ==> Represents() && abs == Step(env, old(abs), t).value
    {
      FieldsAgree();
      hide Rep, Handle;
      if continuation {
        if t.id == Newline {
          SetContinuation(false);
          return true;
        } else if t.id != Whitespace && t.id != MultiLineComment && t.id != SingleLineComment {
          SetContinuation(false);
        }
      } else {
        assert abs.(cont := false) == abs;
      }
      ok := Dispatch(t);
    }

    method Dispatch(t: Token) returns (ok: bool)
      requires Represents() && IsToken(t.id) && (abs.cont ==> t.id.Whitespace? || IsComment(t.id))
      modifies this
      ensures ok <==> Handle(env, old(abs), t).Some?
      ensures ok ==> Represents() && abs == Handle(env, old(abs), t).value
    {
      FieldsAgree();
      NothingRegistered(env, abs, t);
      var key := Lookup(state, t.id);
      hide Rep, Lookup, InAnnotation, BetweenNodes, InNode, InParams, InEnd, InArgProp, InPostWS, InPropValue;
      if key.None? {
        return false;
      }
      match state
      case StateDocument => ok := InDocument(key.value, t);
      case StateChildren => ok := InChildren(key.value, t);
      case StateTypeAnnot => ok := InTypeAnnot(key.value, t);
      case StateTypeDone => ok := InTypeDone(key.value, t);
      case StateNode => ok := InStateNode(key.value, t);
      case StateNodeParams => ok := InStateNodeParams(key.value, t);
      case StateNodeEnd => ok := InStateNodeEnd(key.value, t);
      case StateArgProp => ok := InStateArgProp(key.value, t);
      case StateArgPropPostWS => ok := InStateArgPropPostWS(key.value, t);
      case StatePropertyValue => ok := InStatePropertyValue(key.value, t);
      case StateProperty => assert false;
    }

    /** The nodes reachable from the document are the tree that the configuration shows. */
    lemma ShowDocument()
      requires Represents()
      ensures Shows(store, doc, Visible(abs), 0, |store|)
    {
      DocumentShown(Now(), abs);
    }

    /** Main result: a whole parse runs the machine from its initial configuration to EOF. */
    method ParseAllTokens(tokens: seq<Token>) returns (ok: bool)
      requires Represents() && abs == INITIAL && forall i :: 0 <= i < |tokens| ==> IsToken(tokens[i].id)
      modifies this
      ensures ok <==> ParseAll(env, tokens).Some?
      ensures ok ==> Represents() && abs == ParseAll(env, tokens).value
      ensures ok ==> Shows(store, doc, Visible(abs), 0, |store|)
    {
      hide Rep, Step, Shows;
      var all := tokens + [EOF_TOKEN];
      var i := 0;
      while i < |all|
        invariant 0 <= i <= |all|
        invariant Represents()
        invariant Run(env, abs, all[i..]) == ParseAll(env, tokens)
      {
        assert all[i..][1..] == all[i + 1..];
        ok := Parse(all[i]);
        if !ok {
          return;
        }
        i := i + 1;
      }
      assert all[i..] == [];
      ShowDocument();
      ok := true;
    }
  }

  // ----- facts about the machine that the handlers use -----

  lemma IdentifierClass(id: TokenID)
    ensures ClassIdentifier in Classes(id) <==> IsIdentifier(id)
  {}

  /** The fields after a node is begun represent the machine after it. */
  lemma StartFacts(e: Env, k: Fields, c: Config, t: Token, r: Rec)
    requires Rep(k, c) && c.phase.Between? && c.annotation.NoAnnotation?
    requires r == NEW_REC.(name := ValueOf(e.decode, t, NO_TOKEN), typ := if k.typeAnnot.Valid() then k.typeAnnot.data else [])
    ensures (forall i :: 0 <= i < |k.node| ==> k.node[i] < |k.store|) && k.ignoreNextNode == c.skipNode
    ensures StartNode(e, c, t).Some? <==> ValueOf(e.decode, t, NO_TOKEN).Some?
    ensures StartNode(e, c, t).Some? ==> Rep(StartedFields(k, r, c.skipNode || InDropped(c.blocks)), StartNode(e, c, t).value)
  {
    hide RepTree, StartedFields;
    if StartNode(e, c, t).Some? {
      StartRep(e, k, c, t, StartNode(e, c, t).value, r);
    } else {
      NodesInStore(k, c);
    }
  }

  /** What the machine does in AtParams, by what the table holds for the token. */
  lemma ParamsByKey(e: Env, c: Config, t: Token, key: TokenID)
    requires c.phase.Inside? && IsToken(t.id) && Lookup(StateNodeParams, t.id) == Some(key)
    requires c.cont ==> t.id.Whitespace? || IsComment(t.id)
    ensures key.Whitespace? || key.MultiLineComment? ==> InParams(e, c, t) == Some(c)
    ensures key.Equals? ==> InParams(e, c, t) == None
    ensures key.TokenComment? ==> InParams(e, c, t) == if c.typ.Valid() then None else Some(c.(skipEntry := true))
    ensures key.SingleLineComment? ==> InParams(e, c, t) == Some(if c.cont then c else Goto(c, AtEnd))
    ensures key.Continuation? ==> InParams(e, c, t) == Some(c.(cont := true))
    ensures key.ParensOpen? ==> InParams(e, c, t) == Some(c.(annotation := Wanted))
    ensures key.BareIdentifier? || key.ClassString? || key.ClassNonStringValue? || key.SuffixedDecimal? ==> InParams(e, c, t) == FirstEntry(e, c, t)
    ensures key.BraceOpen? ==> InParams(e, c, t) == Some(OpenBlock(c, t))
    ensures key.ClassTerminator? ==> InParams(e, c, t) == EndParams(e, c, t) && IsTerminator(t.id) && !c.cont
    ensures key.Whitespace? || key.MultiLineComment? || key.Equals? || key.TokenComment? || key.SingleLineComment? || key.Continuation?
      || key.ParensOpen? || key.BareIdentifier? || key.ClassString? || key.ClassNonStringValue? || key.SuffixedDecimal? || key.BraceOpen?
      || key.ClassTerminator?
  {
    LookupNodeParams(t.id);
    hide Lookup, OpenBlock, FirstEntry, EndParams, Goto;
  }

  lemma ArgPropByKey(e: Env, c: Config, t: Token, key: TokenID)
    requires c.phase.Inside? && IsToken(t.id) && Lookup(StateArgProp, t.id) == Some(key)
    ensures key.TokenComment? ==>
      InArgProp(e, c, t) == if Commit(e, c).None? then None else Some(Commit(e, c).value.(skipEntry := true))
    ensures key.Equals? ==> InArgProp(e, c, t) == AcceptEquals(c)
    ensures key.Whitespace? ==> InArgProp(e, c, t) == Some(Goto(c, AtPostWS))
    ensures key.Continuation? ==> InArgProp(e, c, t) == Some(Goto(c.(cont := true), AtPostWS))
    ensures key.ClassValue? ==> InArgProp(e, c, t) == if c.ident.Valid() then None else Some(c.(ident := t))
    ensures key.BraceOpen? || key.BraceClose? || key.ClassTerminator? ==> InArgProp(e, c, t) == CommitAndLeave(e, c, t)
    ensures key.TokenComment? || key.Equals? || key.Whitespace? || key.Continuation? || key.ClassValue? || key.BraceOpen? || key.BraceClose?
      || key.ClassTerminator?
  {
    LookupArgProp(t.id);
    hide Lookup, Commit, CommitAndLeave, AcceptEquals, Goto;
  }

  lemma PostWSByKey(e: Env, c: Config, t: Token, key: TokenID)
    requires c.phase.Inside? && IsToken(t.id) && Lookup(StateArgPropPostWS, t.id) == Some(key)
    ensures key.Whitespace? || key.MultiLineComment? ==> InPostWS(e, c, t) == Some(c)
    ensures key.Equals? ==> InPostWS(e, c, t) == AcceptEquals(c)
    ensures key.Continuation? ==> InPostWS(e, c, t) == Some(c.(cont := true))
    ensures key.BraceOpen? || key.BraceClose? || key.ClassTerminator? ==> InPostWS(e, c, t) == CommitAndLeave(e, c, t)
    ensures key.ClassValue? || key.ParensOpen? || key.TokenComment? || key.SingleLineComment? ==>
      IsValue(t.id) || t.id.ParensOpen? || t.id.TokenComment? || t.id.SingleLineComment?
    ensures key.Whitespace? || key.MultiLineComment? || key.Equals? || key.Continuation? || key.BraceOpen? || key.BraceClose?
      || key.ClassTerminator? || key.ClassValue? || key.ParensOpen? || key.TokenComment? || key.SingleLineComment?
  {
    LookupArgPropPostWS(t.id);
    hide Lookup, NextEntry, BeforeComment, CommitAndLeave, AcceptEquals, Goto;
  }

  lemma CommitStays(e: Env, c: Config)
    requires c.phase.Inside?
    ensures Commit(e, c).Some? ==> Commit(e, c).value.phase.Inside? && Commit(e, c).value.annotation == c.annotation
    ensures CommitPending(e, c).Some? ==> CommitPending(e, c).value.phase.Inside? && CommitPending(e, c).value.annotation == c.annotation
  {}

  lemma PropertyStays(e: Env, c: Config, t: Token)
    requires c.phase.Inside?
    ensures AddProperty(e, c, t).Some? ==> AddProperty(e, c, t).value.phase.Inside? && AddProperty(e, c, t).value.annotation == c.annotation
  {}

  /** A token without a handler is an error. */
  lemma NothingRegistered(e: Env, c: Config, t: Token)
    requires IsToken(t.id)
    ensures c.annotation.Wanted? && Lookup(StateTypeAnnot, t.id).None? ==> Handle(e, c, t).None?
    ensures c.annotation.Got? && Lookup(StateTypeDone, t.id).None? ==> Handle(e, c, t).None?
    ensures c.annotation.NoAnnotation? && Lookup(BaseState(c), t.id).None? ==> Handle(e, c, t).None?
  {
    hide Lookup;
    LookupAnnotation(t.id);
    if c.annotation.NoAnnotation? {
      match c.phase
      case Between => LookupDocument(t.id); LookupChildren(t.id);
      case Inside(_, AtNode, _) => LookupNode(t.id);
      case Inside(_, AtParams, _) => LookupNodeParams(t.id);
      case Inside(_, AtEnd, _) => LookupNodeEnd(t.id);
      case Inside(_, AtArgProp, _) => LookupArgProp(t.id);
      case Inside(_, AtPostWS, _) => LookupArgPropPostWS(t.id);
      case Inside(_, AtPropValue, _) => LookupPropertyValue(t.id);
    }
  }
}
