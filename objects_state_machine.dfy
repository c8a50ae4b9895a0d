/**
 * The object-based game state machine: a stack of game states, each of
 * which is also a child object of the machine. The top state is the active
 * one; pushing pauses it, popping exits it, removes it from its parent's
 * children and unpauses the state beneath.
 *
 * Inheritance is modelled by composition: a state and the machine each own
 * the game object (`node`) that the source inherits from. The overridable
 * callbacks and the signals emitted after them are recorded in a log, so
 * the contracts can say which of them run, on which state and in which
 * order. A state's `kinds` stand for the set of classes a dynamic cast to
 * which succeeds.
 */
module ObjectStates {
  import opened Uuid
  import opened GameObjects
  import opened Seqs

  /** The per-state callbacks of a game state. */
  datatype StateHook =
    | Enter
    | OnEvent(event: nat)
    | Update(delta: real)
    | PhysicsUpdate(delta: real)
    | Draw
    | DrawUI
    | Exit
    | Pause
    | Unpause

  /** `Fired` is the overridable callback; `Emitted` is the signal raised right after it. */
  datatype StateEvent =
    | Fired(state: GameState, hook: StateHook)
    | Emitted(state: GameState, hook: StateHook)

  class StateLog {
    var events: seq<StateEvent>

    constructor ()
      ensures events == []
    {
      events := [];
    }
  }

  /** What entering a state records: its callback, then its signal. */
  function EnterTrace(s: GameState): seq<StateEvent>
  {
    [Fired(s, Enter), Emitted(s, Enter)]
  }

  /** What popping `st` records: exit of the top (callback, then signal), then unpause of the state beneath. */
  function PopTrace(st: seq<GameState>): seq<StateEvent>
  {
    if st == [] then []
    else
      [Fired(Last(st), Exit), Emitted(Last(st), Exit)]
      + (if |st| > 1 then [Fired(Last(Pop(st)), Unpause)] else [])
  }

  /** What popping until empty records. */
  function FlushTrace(st: seq<GameState>): seq<StateEvent>
    decreases |st|
  {
    if st == [] then [] else PopTrace(st) + FlushTrace(Pop(st))
  }

  /** What pushing `s` onto `st` records: the old top is paused, then `s` is entered. */
  function PushTrace(st: seq<GameState>, s: GameState): seq<StateEvent>
  {
    (if st == [] then [] else [Fired(Last(st), Pause)]) + EnterTrace(s)
  }

  /** What a per-frame dispatch records: only the top state's callback and signal, if there is a top. */
  function DispatchTrace(st: seq<GameState>, h: StateHook): seq<StateEvent>
  {
    if st == [] then [] else [Fired(Last(st), h), Emitted(Last(st), h)]
  }

  /** The states whose Exit callback ran, in order. */
  function Exited(tr: seq<StateEvent>): seq<GameState>
  {
    if tr == [] then []
    else (if tr[0].Fired? && tr[0].hook == Exit then [tr[0].state] else []) + Exited(tr[1..])
  }

  /** The states whose Enter callback ran, in order. */
  function Entered(tr: seq<StateEvent>): seq<GameState>
  {
    if tr == [] then []
    else (if tr[0].Fired? && tr[0].hook == Enter then [tr[0].state] else []) + Entered(tr[1..])
  }

  lemma {:induction false} ExitedAppend(a: seq<StateEvent>, b: seq<StateEvent>)
    ensures Exited(a + b) == Exited(a) + Exited(b)
    decreases |a|
  {
    if a == [] {
      assert a + b == b;
    } else {
      assert (a + b)[1..] == a[1..] + b;
      ExitedAppend(a[1..], b);
    }
  }

  lemma {:induction false} EnteredAppend(a: seq<StateEvent>, b: seq<StateEvent>)
    ensures Entered(a + b) == Entered(a) + Entered(b)
    decreases |a|
  {
    if a == [] {
      assert a + b == b;
    } else {
      assert (a + b)[1..] == a[1..] + b;
      EnteredAppend(a[1..], b);
    }
  }

  /** Popping exits exactly the top state and enters nothing. */
  lemma PopExitsTop(st: seq<GameState>)
    ensures Exited(PopTrace(st)) == (if st == [] then [] else [Last(st)])
    ensures Entered(PopTrace(st)) == []
  {
    if st != [] {
      var ex := [Fired(Last(st), Exit), Emitted(Last(st), Exit)];
      var un: seq<StateEvent> := if |st| > 1 then [Fired(Last(Pop(st)), Unpause)] else [];
      ExitedAppend(ex, un);
      EnteredAppend(ex, un);
      assert ex[1..][1..] == [];
      if |st| > 1 {
        assert un[1..] == [];
      }
    }
  }

  /** Flushing exits every state exactly in the order top to bottom, and enters none. */
  lemma {:induction false} FlushExitsTopToBottom(st: seq<GameState>)
    ensures Exited(FlushTrace(st)) == Reversed(st)
    ensures Entered(FlushTrace(st)) == []
    decreases |st|
  {
    if st != [] {
      PopExitsTop(st);
      FlushExitsTopToBottom(Pop(st));
      ExitedAppend(PopTrace(st), FlushTrace(Pop(st)));
      EnteredAppend(PopTrace(st), FlushTrace(Pop(st)));
    }
  }

  /** On a stack without repeated states, flushing runs each state's Exit exactly once. */
  lemma FlushExitsOnce(st: seq<GameState>, s: GameState)
    requires Distinct(st)
    ensures multiset(Exited(FlushTrace(st)))[s] == (if s in st then 1 else 0)
  {
    FlushExitsTopToBottom(st);
    var r := Reversed(st);
    assert Distinct(r) by {
      forall i, j | 0 <= i < j < |r| ensures r[i] != r[j] {
        assert r[i] == st[|st| - 1 - i] && r[j] == st[|st| - 1 - j];
      }
    }
    assert s in st <==> s in r by {
      if s in st {
        var i :| 0 <= i < |st| && st[i] == s;
        assert r[|st| - 1 - i] == s;
      }
    }
    DistinctCount(r, s);
  }

  /** Pushing enters exactly the new state, exits nothing, and pauses the old top iff there is one. */
  lemma PushEntersOnce(st: seq<GameState>, s: GameState)
    ensures Entered(PushTrace(st, s)) == [s]
    ensures Exited(PushTrace(st, s)) == []
    ensures (st != [] ==> Fired(Last(st), Pause) in PushTrace(st, s))
    ensures (forall e :: e in PushTrace(st, s) && e.hook == Pause ==> st != [] && e.state == Last(st))
  {
    var pause: seq<StateEvent> := if st == [] then [] else [Fired(Last(st), Pause)];
    EnteredAppend(pause, EnterTrace(s));
    ExitedAppend(pause, EnterTrace(s));
    assert EnterTrace(s)[1..][1..] == [];
    if st != [] {
      assert pause[1..] == [];
    }
  }

  /** Switching exits exactly the old top (if any) and then enters exactly the new state. */
  lemma SwitchExitsThenEnters(st: seq<GameState>, s: GameState)
    ensures Exited(PopTrace(st) + EnterTrace(s)) == (if st == [] then [] else [Last(st)])
    ensures Entered(PopTrace(st) + EnterTrace(s)) == [s]
  {
    PopExitsTop(st);
    PushEntersOnce([], s);
    assert PushTrace([], s) == EnterTrace(s);
    ExitedAppend(PopTrace(st), EnterTrace(s));
    EnteredAppend(PopTrace(st), EnterTrace(s));
  }

  /** Flushing and switching exits every old state top to bottom, then enters exactly the new state. */
  lemma FlushSwitchExitsThenEnters(st: seq<GameState>, s: GameState)
    ensures Exited(FlushTrace(st) + EnterTrace(s)) == Reversed(st)
    ensures Entered(FlushTrace(st) + EnterTrace(s)) == [s]
  {
    FlushExitsTopToBottom(st);
    PushEntersOnce([], s);
    assert PushTrace([], s) == EnterTrace(s);
    ExitedAppend(FlushTrace(st), EnterTrace(s));
    EnteredAppend(FlushTrace(st), EnterTrace(s));
  }

  /** A dispatch reaches the top state only, and nothing on an empty stack. */
  lemma DispatchReachesTopOnly(st: seq<GameState>, h: StateHook)
    ensures st == [] ==> DispatchTrace(st, h) == []
    ensures forall e :: e in DispatchTrace(st, h) ==> st != [] && e.state == Last(st) && e.hook == h
  {
  }

  /** The game objects of the stacked states, bottom first. */
  function NodesOf(st: seq<GameState>): (r: seq<GameObject>)
    ensures |r| == |st| && forall i :: 0 <= i < |st| ==> r[i] == st[i].node
  {
    seq(|st|, i requires 0 <= i < |st| => st[i].node)
  }

  /** The children left once a pop of `st` removes the top state's object from `cs`. */
  function AfterPop(st: seq<GameState>, cs: seq<GameObject>): seq<GameObject>
  {
    if st == [] then cs else Without(cs, Last(st).node)
  }

  /** The children left once the objects `xs` are removed from `cs`, last first, as a flush removes them. */
  function WithoutAll(cs: seq<GameObject>, xs: seq<GameObject>): seq<GameObject>
    decreases |xs|
  {
    if xs == [] then cs else WithoutAll(Without(cs, Last(xs)), Pop(xs))
  }

  lemma WithoutMembers(cs: seq<GameObject>, x: GameObject, c: GameObject)
    ensures c in Without(cs, x) <==> c in cs && c != x
  {
    WithoutMultiset(cs, x);
    assert (c in Without(cs, x)) == (c in multiset(Without(cs, x)));
    assert (c in cs) == (c in multiset(cs));
  }

  /** One pop of a flush: removing the top's object first, then the rest. */
  lemma WithoutAllStep(cs: seq<GameObject>, st: seq<GameState>)
    requires st != []
    ensures WithoutAll(cs, NodesOf(st)) == WithoutAll(Without(cs, Last(st).node), NodesOf(Pop(st)))
  {
    assert Last(NodesOf(st)) == Last(st).node && Pop(NodesOf(st)) == NodesOf(Pop(st));
  }

  /** A flush keeps exactly the children that are not objects of the stacked states. */
  lemma {:induction false} WithoutAllMembers(cs: seq<GameObject>, xs: seq<GameObject>, c: GameObject)
    ensures c in WithoutAll(cs, xs) <==> c in cs && c !in xs
    decreases |xs|
  {
    if xs != [] {
      WithoutAllMembers(Without(cs, Last(xs)), Pop(xs), c);
      WithoutMembers(cs, Last(xs), c);
      assert xs == Pop(xs) + [Last(xs)];
    }
  }

  class GameState {
    /** The state's own identifier, separate from the identifier of its game object. */
    const id: Uuid
    const node: GameObject
    const owner: GameStateMachine
    const kinds: set<nat>
    var enabled: bool

    /** A new state, disabled, owning a fresh game object without parent or children. */
    constructor (owner: GameStateMachine, id: Uuid, objectId: Uuid, kinds: set<nat>)
      ensures this.owner == owner && this.id == id && this.kinds == kinds
      ensures fresh(node) && node.uuid == objectId && node.parent == null && node.children == []
      ensures !enabled
    {
      this.owner := owner;
      this.id := id;
      this.kinds := kinds;
      node := new GameObject(objectId);
      enabled := false;
    }

    /** Game states are equal when their state identifiers are. */
    predicate Equals(other: GameState)
    {
      id == other.id
    }

    predicate IsEqualTo(other: GameState)
    {
      Equals(other)
    }

    /** The Enable flag; its implementation is not part of this model, so it is a plain field update. */
    method Enable(enable: bool)
      modifies this
      ensures enabled == enable
    {
      enabled := enable;
    }

    method StateEnter(log: StateLog)
      modifies log
      ensures log.events == old(log.events) + EnterTrace(this)
    {
      log.events := log.events + EnterTrace(this);
    }

    method StateExit(log: StateLog)
      modifies log
      ensures log.events == old(log.events) + [Fired(this, Exit), Emitted(this, Exit)]
    {
      log.events := log.events + [Fired(this, Exit), Emitted(this, Exit)];
    }

    /** Disables the state, then runs its pause callback. */
    method StateSetPause(log: StateLog)
      modifies this, log
      ensures !enabled && log.events == old(log.events) + [Fired(this, Pause)]
    {
      Enable(false);
      log.events := log.events + [Fired(this, Pause)];
    }

    /** Enables the state, then runs its unpause callback. */
    method StateSetUnpause(log: StateLog)
      modifies this, log
      ensures enabled && log.events == old(log.events) + [Fired(this, Unpause)]
    {
      Enable(true);
      log.events := log.events + [Fired(this, Unpause)];
    }

    /** The per-frame callbacks: the callback runs unconditionally, then its signal is emitted. */
    method StateHook(h: StateHook, log: StateLog)
      modifies log
      ensures log.events == old(log.events) + [Fired(this, h), Emitted(this, h)]
    {
      log.events := log.events + [Fired(this, h), Emitted(this, h)];
    }

    /** Forwards to the owning machine. */
    method PopState()
      requires owner.stack != [] ==> owner.Top().node.parent == owner.node
      modifies owner.PopFrame()
      ensures owner.stack == (if old(owner.stack) == [] then [] else Pop(old(owner.stack)))
      ensures owner.log.events == old(owner.log.events) + PopTrace(old(owner.stack))
      ensures owner.node.children == AfterPop(old(owner.stack), old(owner.node.children))
      ensures old(owner.stack) != [] ==>
        old(owner.Top().node).parent == null && (owner.stack != [] ==> owner.Top().enabled)
      ensures old(owner.Valid()) ==> owner.Valid()
    {
      owner.PopState();
    }

    /** Forwards to the owning machine. */
    method FlushStack()
      requires owner.Valid()
      modifies owner.FlushFrame()
      ensures owner.stack == [] && owner.Valid()
      ensures owner.log.events == old(owner.log.events) + FlushTrace(old(owner.stack))
      ensures owner.node.children == WithoutAll(old(owner.node.children), NodesOf(old(owner.stack)))
      ensures forall s :: s in old(owner.stack) ==> s.node.parent == null
    {
      owner.FlushStack();
    }
  }

  class GameStateMachine {
    const node: GameObject
    /** Where the Init calls of newly added children are recorded. */
    const journal: Journal
    const log: StateLog
    /** The state stack, bottom first: the active state is the last element. */
    var stack: seq<GameState>

    constructor (objectId: Uuid)
      ensures fresh(node) && node.uuid == objectId && node.parent == null && node.children == []
      ensures fresh(journal) && journal.calls == [] && fresh(log) && log.events == []
      ensures stack == []
    {
      node := new GameObject(objectId);
      journal := new Journal();
      log := new StateLog();
      stack := [];
    }

    function Top(): GameState
      requires stack != []
      reads this
    {
      Last(stack)
    }

    function Nodes(): set<GameObject>
      reads this
    {
      set s | s in stack :: s.node
    }

    /**
     * The stack lies inside the machine's children: the stacked states' game
     * objects are distinct children of the machine whose parent is the machine.
     */
    ghost predicate Valid()
      reads this, node, Nodes()
    {
      && (forall i, j :: 0 <= i < j < |stack| ==> stack[i].node != stack[j].node)
      && forall i :: 0 <= i < |stack| ==> ChildState(stack[i])
    }

    /** A state whose game object is a child of the machine, with the machine as parent. */
    ghost predicate ChildState(s: GameState)
      reads s.node, node
    {
      s.node != node && s.node.parent == node && s.node in node.children
    }

    /** What PopState may change: the log, the machine's children, the top's object and the state beneath. */
    function PopFrame(): set<object>
      reads this
    {
      {this, log, node}
      + (if stack == [] then {} else {Top().node})
      + (if |stack| > 1 then {Last(Pop(stack))} else {})
    }

    function FlushFrame(): set<object>
      reads this
    {
      {this, log, node} + (set s | s in stack) + Nodes()
    }

    /**
     * Returns the active state when the stack is non-empty and the active
     * state is of kind `kind`, and null otherwise.
     */
    function GetActiveState(kind: nat): (r: GameState?)
      reads this
      ensures r != null <==> stack != [] && kind in Top().kinds
      ensures r != null ==> r == Top()
    {
      if stack != [] && kind in Top().kinds then Top() else null
    }

    /**
     * Exits the active state, removes it from its parent's children, pops
     * it, and unpauses the state beneath if there is one; nothing happens on
     * an empty stack. The popped state's parent is taken to be the machine.
     */
    method PopState()
      requires stack != [] ==> Top().node.parent == node
      modifies PopFrame()
      ensures old(stack) == [] ==> stack == [] && log.events == old(log.events)
      ensures node.children == AfterPop(old(stack), old(node.children))
      ensures old(stack) != [] ==>
        && stack == Pop(old(stack))
        && log.events == old(log.events) + PopTrace(old(stack))
        && old(Top().node).parent == null
        && node.children == Without(old(node.children), old(Top().node))
        && (stack != [] ==> Top().enabled)
      ensures old(Valid()) ==> Valid()
    {
      if stack == [] {
        return;
      }
      ghost var valid := Valid();
      ghost var children := node.children;
      ghost var st := stack;
      var top := stack[|stack| - 1];
      top.StateExit(log);
      var p := top.node.parent;
      p.RemoveChildObject(top.node);
      stack := stack[..|stack| - 1];
      if stack != [] {
        stack[|stack| - 1].StateSetUnpause(log);
      }
      if valid {
        assert stack == st[..|st| - 1];
        forall i | 0 <= i < |stack|
          ensures ChildState(stack[i])
        {
          assert stack[i] == st[i] && st[i].node != top.node;
          WithoutKeeps(children, top.node, stack[i].node);
        }
      }
    }

    /** Pops until the stack is empty. */
    method FlushStack()
      requires Valid()
      modifies FlushFrame()
      ensures stack == [] && Valid()
      ensures log.events == old(log.events) + FlushTrace(old(stack))
      ensures node.children == WithoutAll(old(node.children), NodesOf(old(stack)))
      ensures forall s :: s in old(stack) ==> s.node.parent == null
    {
      ghost var st := stack;
      ghost var children := node.children;
      while stack != []
        invariant Valid()
        invariant |stack| <= |st| && forall i :: 0 <= i < |stack| ==> stack[i] == st[i]
        invariant forall i, j :: 0 <= i < j < |st| ==> st[i].node != st[j].node
        invariant forall i :: 0 <= i < |st| ==> st[i].node != node
        invariant old(log.events) + FlushTrace(st) == log.events + FlushTrace(stack)
        invariant WithoutAll(node.children, NodesOf(stack)) == WithoutAll(children, NodesOf(st))
        invariant forall i :: |stack| <= i < |st| ==> st[i].node.parent == null
        decreases |stack|
      {
        ghost var before := stack;
        ghost var events := log.events;
        label Before:
        FlushPop(st);
        forall i | |stack| <= i < |st|
          ensures st[i].node.parent == null
        {
          if i > |stack| {
            assert old@Before(st[i].node.parent) == null;
          }
        }
        assert FlushTrace(before) == PopTrace(before) + FlushTrace(stack);
        ConcatAssoc(events, PopTrace(before), FlushTrace(stack));
      }
      forall s | s in st ensures s.node.parent == null {
        var i :| 0 <= i < |st| && st[i] == s;
      }
    }

    /**
     * One pop of a flush of `st`: the popped object leaves the children and
     * loses its parent, while the objects popped earlier keep theirs.
     */
    method FlushPop(ghost st: seq<GameState>)
      requires stack != [] && |stack| <= |st| && forall i :: 0 <= i < |stack| ==> stack[i] == st[i]
      requires forall i, j :: 0 <= i < j < |st| ==> st[i].node != st[j].node
      requires forall i :: 0 <= i < |st| ==> st[i].node != node
      requires Top().node.parent == node
      modifies PopFrame()
      ensures stack == Pop(old(stack)) && log.events == old(log.events) + PopTrace(old(stack))
      ensures WithoutAll(node.children, NodesOf(stack)) == WithoutAll(old(node.children), NodesOf(old(stack)))
      ensures st[|stack|].node.parent == null
      ensures forall i :: |stack| < i < |st| ==> st[i].node.parent == old(st[i].node.parent)
      ensures old(Valid()) ==> Valid()
    {
      ghost var before := stack;
      ghost var kids := node.children;
      ghost var frame := PopFrame();
      assert Top() == st[|stack| - 1] && (|stack| > 1 ==> Last(Pop(stack)) == st[|stack| - 2]);
      PopState();
      forall i | |stack| < i < |st|
        ensures st[i].node.parent == old(st[i].node.parent)
      {
        assert st[i].node != st[|stack|].node && st[i].node != node;
        assert st[i].node !in frame;
      }
      WithoutAllStep(kids, before);
    }

    /** Creates a disabled child state that is not pushed. */
    method CreateState(id: Uuid, objectId: Uuid, kinds: set<nat>) returns (s: GameState)
      modifies node, journal
      ensures fresh(s) && s.owner == this && s.id == id && s.kinds == kinds && !s.enabled
      ensures fresh(s.node) && s.node.uuid == objectId && s.node.children == []
      ensures stack == old(stack) && s !in stack && log.events == old(log.events) && node.parent == old(node.parent)
      ensures !old(node.HasChildWithUuid(objectId)) ==>
        node.children == old(node.children) + [s.node] && s.node.parent == node
        && journal.calls == old(journal.calls) + [Call(s.node, Init)]
      ensures old(node.HasChildWithUuid(objectId)) ==>
        node.children == old(node.children) && s.node.parent == null && journal.calls == old(journal.calls)
      ensures old(Valid()) ==> Valid()
    {
      s := new GameState(this, id, objectId, kinds);
      node.AddChildObject(s.node, journal);
      s.Enable(false);
    }

    /**
     * Pauses the active state if there is one, then pushes `state`
     * disabled and enters it.
     */
    method PushState(state: GameState)
      modifies this, log, state, (if stack == [] then {} else {Top()})
      ensures stack == old(stack) + [state]
      ensures log.events == old(log.events) + PushTrace(old(stack), state)
      ensures !state.enabled && (old(stack) != [] ==> !old(Top()).enabled)
      ensures old(Valid()) && state.node != node && state.node.parent == node && state.node in node.children && state.node !in old(Nodes())
        ==> Valid()
    {
      if stack != [] {
        stack[|stack| - 1].StateSetPause(log);
      }
      state.Enable(false);
      stack := stack + [state];
      state.StateEnter(log);
    }

    /** Pops the active state if there is one, then pushes `state` disabled and enters it. */
    method SwitchState(state: GameState)
      requires stack != [] ==> Top().node.parent == node
      modifies PopFrame(), state
      ensures stack == (if old(stack) == [] then [] else Pop(old(stack))) + [state]
      ensures log.events == old(log.events) + PopTrace(old(stack)) + EnterTrace(state)
      ensures !state.enabled
      ensures |old(stack)| > 1 && state != old(stack)[|old(stack)| - 2] ==> old(stack)[|old(stack)| - 2].enabled
      ensures node.children == AfterPop(old(stack), old(node.children))
      ensures old(stack) != [] ==> old(Top().node).parent == null
      ensures (old(Valid()) && state.node != node && old(state.node.parent) == node
        && state.node in old(node.children) && state.node !in old(Nodes())) ==> Valid()
    {
      ghost var st := stack;
      ghost var children := node.children;
      ghost var frame := PopFrame();
      if stack != [] {
        PopState();
        WithoutMembers(children, Last(st).node, state.node);
        assert state.node !in frame ==> state.node.parent == old(state.node.parent);
      }
      assert state.node !in old(Nodes()) ==> state.node !in Nodes() by {
        assert forall i :: 0 <= i < |stack| ==> stack[i] == st[i];
      }
      EnterOnTop(state);
    }

    /** Pushes `state` disabled and enters it, without pausing the state beneath. */
    method EnterOnTop(state: GameState)
      modifies this, log, state
      ensures stack == old(stack) + [state]
      ensures log.events == old(log.events) + EnterTrace(state)
      ensures !state.enabled
      ensures old(Valid()) && state.node != node && state.node.parent == node && state.node in node.children && state.node !in old(Nodes())
        ==> Valid()
    {
      state.Enable(false);
      stack := stack + [state];
      state.StateEnter(log);
    }

    /** Pops every state, then pushes `state` disabled and enters it. */
    method FlushAndSwitchState(state: GameState)
      requires Valid()
      modifies FlushFrame(), state
      ensures stack == [state]
      ensures log.events == old(log.events) + FlushTrace(old(stack)) + EnterTrace(state)
      ensures !state.enabled
      ensures node.children == WithoutAll(old(node.children), NodesOf(old(stack)))
      ensures forall s :: s in old(stack) ==> s.node.parent == null
      ensures (state.node != node && old(state.node.parent) == node
        && state.node in old(node.children) && state.node !in old(Nodes())) ==> Valid()
    {
      ghost var st := stack;
      ghost var children := node.children;
      ghost var frame := FlushFrame();
      ghost var fits := state.node != node && state.node.parent == node
        && state.node in node.children && state.node !in Nodes();
      FlushStack();
      if fits {
        assert state.node !in frame;
        assert state.node.parent == node;
        assert state.node !in NodesOf(st);
        WithoutAllMembers(children, NodesOf(st), state.node);
      }
      EnterOnTop(state);
    }

    /** PushState of a state created on the spot as a child of the machine. */
    method PushNewState(id: Uuid, objectId: Uuid, kinds: set<nat>) returns (s: GameState)
      modifies this, log, node, journal, (if stack == [] then {} else {Top()})
      ensures fresh(s) && s.id == id && s.kinds == kinds && s.node.uuid == objectId && !s.enabled
      ensures stack == old(stack) + [s]
      ensures log.events == old(log.events) + PushTrace(old(stack), s)
      ensures old(stack) != [] ==> !old(Top()).enabled
      ensures !old(node.HasChildWithUuid(objectId)) ==>
        node.children == old(node.children) + [s.node] && s.node.parent == node
        && journal.calls == old(journal.calls) + [Call(s.node, Init)]
      ensures old(node.HasChildWithUuid(objectId)) ==>
        node.children == old(node.children) && s.node.parent == null && journal.calls == old(journal.calls)
      ensures old(Valid()) && !old(node.HasChildWithUuid(objectId)) ==> Valid()
    {
      if stack != [] {
        stack[|stack| - 1].StateSetPause(log);
      }
      assert node.children == old(node.children) && journal.calls == old(journal.calls);
      s := CreateState(id, objectId, kinds);
      s.Enable(false);
      stack := stack + [s];
      s.StateEnter(log);
    }

    /**
     * SwitchState to a state created on the spot, after the pop: the new
     * state's object joins the children unless a remaining child already
     * carries its identifier.
     */
    method SwitchNewState(id: Uuid, objectId: Uuid, kinds: set<nat>) returns (s: GameState)
      requires stack != [] ==> Top().node.parent == node
      modifies PopFrame(), node, journal
      ensures fresh(s) && s.id == id && s.kinds == kinds && s.node.uuid == objectId && !s.enabled
      ensures stack == (if old(stack) == [] then [] else Pop(old(stack))) + [s]
      ensures log.events == old(log.events) + PopTrace(old(stack)) + EnterTrace(s)
      ensures old(stack) != [] ==> old(Top().node).parent == null
      ensures !UuidIn(AfterPop(old(stack), old(node.children)), objectId) ==>
        node.children == AfterPop(old(stack), old(node.children)) + [s.node] && s.node.parent == node
        && journal.calls == old(journal.calls) + [Call(s.node, Init)]
      ensures UuidIn(AfterPop(old(stack), old(node.children)), objectId) ==>
        node.children == AfterPop(old(stack), old(node.children)) && s.node.parent == null
        && journal.calls == old(journal.calls)
      ensures old(Valid()) && !UuidIn(AfterPop(old(stack), old(node.children)), objectId) ==> Valid()
    {
      if stack != [] {
        PopState();
      }
      s := CreateState(id, objectId, kinds);
      EnterOnTop(s);
    }

    /**
     * FlushAndSwitchState to a state created on the spot, after the flush:
     * the new state's object joins the children unless a remaining child
     * already carries its identifier.
     */
    method FlushAndSwitchNewState(id: Uuid, objectId: Uuid, kinds: set<nat>) returns (s: GameState)
      requires Valid()
      modifies FlushFrame(), node, journal
      ensures fresh(s) && s.id == id && s.kinds == kinds && s.node.uuid == objectId && !s.enabled
      ensures stack == [s]
      ensures log.events == old(log.events) + FlushTrace(old(stack)) + EnterTrace(s)
      ensures forall t :: t in old(stack) ==> t.node.parent == null
      ensures !UuidIn(WithoutAll(old(node.children), NodesOf(old(stack))), objectId) ==>
        node.children == WithoutAll(old(node.children), NodesOf(old(stack))) + [s.node] && s.node.parent == node
        && journal.calls == old(journal.calls) + [Call(s.node, Init)] && Valid()
      ensures UuidIn(WithoutAll(old(node.children), NodesOf(old(stack))), objectId) ==>
        node.children == WithoutAll(old(node.children), NodesOf(old(stack))) && s.node.parent == null
        && journal.calls == old(journal.calls)
    {
      ghost var st := stack;
      ghost var calls := journal.calls;
      ghost var frame := FlushFrame();
      assert forall i :: 0 <= i < |st| ==> ChildState(st[i]);
      assert journal !in frame;
      FlushStack();
      assert journal.calls == calls;
      label Flushed:
      s := CreateState(id, objectId, kinds);
      EnterOnTop(s);
      forall t | t in st
        ensures t.node.parent == null
      {
        var i :| 0 <= i < |st| && st[i] == t;
        assert t.node != node;
        assert old@Flushed(t.node.parent) == null;
      }
    }

    /** Per-frame dispatch: the active state's callback, or nothing on an empty stack. */
    method Dispatch(h: StateHook)
      modifies log
      ensures log.events == old(log.events) + DispatchTrace(stack, h)
    {
      if stack != [] {
        stack[|stack| - 1].StateHook(h, log);
      }
    }

    method OnEvent(event: nat)
      modifies log
      ensures log.events == old(log.events) + DispatchTrace(stack, StateHook.OnEvent(event))
    {
      Dispatch(StateHook.OnEvent(event));
    }

    method Update(delta: real)
      modifies log
      ensures log.events == old(log.events) + DispatchTrace(stack, StateHook.Update(delta))
    {
      Dispatch(StateHook.Update(delta));
    }

    method PhysicsUpdate(delta: real)
      modifies log
      ensures log.events == old(log.events) + DispatchTrace(stack, StateHook.PhysicsUpdate(delta))
    {
      Dispatch(StateHook.PhysicsUpdate(delta));
    }

    method Draw()
      modifies log
      ensures log.events == old(log.events) + DispatchTrace(stack, StateHook.Draw)
    {
      Dispatch(StateHook.Draw);
    }

    method DrawUI()
      modifies log
      ensures log.events == old(log.events) + DispatchTrace(stack, StateHook.DrawUI)
    {
      Dispatch(StateHook.DrawUI);
    }
  }
}
