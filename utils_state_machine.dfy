/**
 * The callback-based game state machine: a stack of states, each made of
 * optional callbacks. Pushing enters the new state without pausing the old
 * top, popping exits the top, and the per-frame calls reach the top state
 * only. A callback runs only when it is set.
 *
 * A state is a value: the machine owns every state it holds uniquely and
 * never changes one. A state's set callbacks are given by its `callbacks`, and
 * every callback that runs is appended to the machine's `calls`, so the
 * contracts can say which callbacks run, on which state and in which order.
 */
module CallbackStates {
  import opened Uuid
  import opened Seqs

  /** The callback slots of a state. */
  datatype Slot = EnterSlot | HandleInputSlot | UpdateSlot | PhysicsUpdateSlot | DrawSlot | DrawUISlot | ExitSlot

  /** A callback invocation, with the frame delta where the callback takes one. */
  datatype Hook =
    | Enter
    | HandleInput
    | Update(delta: real)
    | PhysicsUpdate(delta: real)
    | Draw
    | DrawUI
    | Exit

  function SlotOf(h: Hook): Slot
  {
    match h
    case Enter => EnterSlot
    case HandleInput => HandleInputSlot
    case Update(_) => UpdateSlot
    case PhysicsUpdate(_) => PhysicsUpdateSlot
    case Draw => DrawSlot
    case DrawUI => DrawUISlot
    case Exit => ExitSlot
  }

  /** A state: its uuid and the callbacks that are set. */
  datatype GameState = GameState(uuid: Uuid, callbacks: set<Slot>)

  /** States compare by uuid alone. */
  predicate SameState(a: GameState, b: GameState)
  {
    a.uuid == b.uuid
  }

  datatype Call = Call(state: GameState, hook: Hook)

  /** What invoking `h` on `s` records: the call if that callback is set, nothing otherwise. */
  function Run(s: GameState, h: Hook): seq<Call>
  {
    if SlotOf(h) in s.callbacks then [Call(s, h)] else []
  }

  /** What popping `st` records: the top's Exit, if there is a top. */
  function PopTrace(st: seq<GameState>): seq<Call>
  {
    if st == [] then [] else Run(Last(st), Exit)
  }

  /** What popping until empty records. */
  function FlushTrace(st: seq<GameState>): seq<Call>
    decreases |st|
  {
    if st == [] then [] else PopTrace(st) + FlushTrace(Pop(st))
  }

  /** What a per-frame call records: the top's callback, if there is a top. */
  function DispatchTrace(st: seq<GameState>, h: Hook): seq<Call>
  {
    if st == [] then [] else Run(Last(st), h)
  }

  /** The states of `tr` whose callback in `slot` ran, in order. */
  function Invoked(tr: seq<Call>, slot: Slot): seq<GameState>
  {
    if tr == [] then []
    else (if SlotOf(tr[0].hook) == slot then [tr[0].state] else []) + Invoked(tr[1..], slot)
  }

  /** The states of `ss` whose callback in `slot` is set, in order. */
  function WithSlot(ss: seq<GameState>, slot: Slot): seq<GameState>
  {
    if ss == [] then []
    else (if slot in ss[0].callbacks then [ss[0]] else []) + WithSlot(ss[1..], slot)
  }

  lemma {:induction false} InvokedAppend(a: seq<Call>, b: seq<Call>, slot: Slot)
    ensures Invoked(a + b, slot) == Invoked(a, slot) + Invoked(b, slot)
    decreases |a|
  {
    if a == [] {
      assert a + b == b;
    } else {
      assert (a + b)[1..] == a[1..] + b;
      InvokedAppend(a[1..], b, slot);
    }
  }

  /** Running a callback invokes exactly that state's slot, and only when it is set. */
  lemma RunInvokes(s: GameState, h: Hook, slot: Slot)
    ensures Invoked(Run(s, h), slot) == (if slot == SlotOf(h) && slot in s.callbacks then [s] else [])
  {
    if SlotOf(h) in s.callbacks {
      assert Run(s, h)[1..] == [];
    }
  }

  /** Popping exits the top, only if its Exit is set, and runs no other callback. */
  lemma PopExitsTop(st: seq<GameState>, slot: Slot)
    ensures Invoked(PopTrace(st), slot)
         == (if st != [] && slot == ExitSlot && ExitSlot in Last(st).callbacks then [Last(st)] else [])
  {
    if st != [] {
      RunInvokes(Last(st), Exit, slot);
    }
  }

  /**
   * Flushing runs the Exit of every state whose Exit is set, from the top
   * down, and no other callback.
   */
  lemma {:induction false} FlushExitsTopToBottom(st: seq<GameState>, slot: Slot)
    ensures Invoked(FlushTrace(st), slot) == (if slot == ExitSlot then WithSlot(Reversed(st), ExitSlot) else [])
    decreases |st|
  {
    if st != [] {
      PopExitsTop(st, slot);
      FlushExitsTopToBottom(Pop(st), slot);
      InvokedAppend(PopTrace(st), FlushTrace(Pop(st)), slot);
      var r := Reversed(st);
      assert r[1..] == Reversed(Pop(st));
    }
  }

  /** On a stack without repeated states, flushing exits each state at most once, and exactly once if its Exit is set. */
  lemma FlushExitsOnce(st: seq<GameState>, s: GameState)
    requires Distinct(st)
    ensures multiset(Invoked(FlushTrace(st), ExitSlot))[s] == (if s in st && ExitSlot in s.callbacks then 1 else 0)
  {
    FlushExitsTopToBottom(st, ExitSlot);
    var r := Reversed(st);
    assert Distinct(r) by {
      forall i, j | 0 <= i < j < |r| ensures r[i] != r[j] {
        assert r[i] == st[|st| - 1 - i] && r[j] == st[|st| - 1 - j];
      }
    }
    assert s in st <==> s in r by {
      if s in st {
        var i :| 0 <= i < |st| && st[i] == s;
        assert r[|st| - 1 - i] == s;
      }
    }
    WithSlotCount(r, ExitSlot, s);
  }

  lemma {:induction false} WithSlotCount(ss: seq<GameState>, slot: Slot, s: GameState)
    requires Distinct(ss)
    ensures multiset(WithSlot(ss, slot))[s] == (if s in ss && slot in s.callbacks then 1 else 0)
    decreases |ss|
  {
    if ss != [] {
      assert Distinct(ss[1..]) by {
        forall i, j | 0 <= i < j < |ss[1..]| ensures ss[1..][i] != ss[1..][j] {
          assert ss[1..][i] == ss[i + 1] && ss[1..][j] == ss[j + 1];
        }
      }
      assert ss[0] !in ss[1..] by {
        forall i | 0 <= i < |ss[1..]| ensures ss[1..][i] != ss[0] {
          assert ss[1..][i] == ss[i + 1];
        }
      }
      assert ss == [ss[0]] + ss[1..];
      WithSlotCount(ss[1..], slot, s);
    }
  }

  /** A per-frame call reaches only the top state, with the hook as given, and only when that callback is set. */
  lemma DispatchReachesTopOnly(st: seq<GameState>, h: Hook)
    ensures |DispatchTrace(st, h)| <= 1
    ensures DispatchTrace(st, h) != [] <==> st != [] && SlotOf(h) in Last(st).callbacks
    ensures forall c :: c in DispatchTrace(st, h) ==> c == Call(Last(st), h)
  {
  }

  class GameStateMachine {
    const uuid: Uuid
    /** The state stack, bottom first. */
    var stack: seq<GameState>
    /** Every callback the machine has run, in order. */
    var calls: seq<Call>

    constructor (id: Uuid)
      ensures uuid == id && stack == [] && calls == []
    {
      uuid := id;
      stack := [];
      calls := [];
    }

    /** Exits the top state (if its Exit is set) and removes it; nothing happens on an empty stack. */
    method PopState()
      modifies this
      ensures stack == (if old(stack) == [] then [] else Pop(old(stack)))
      ensures calls == old(calls) + PopTrace(old(stack))
    {
      if stack == [] {
        return;
      }
      var top := Last(stack);
      if ExitSlot in top.callbacks {
        calls := calls + [Call(top, Exit)];
      }
      stack := Pop(stack);
    }

    /** Pops until the stack is empty. */
    method FlushStack()
      modifies this
      ensures stack == []
      ensures calls == old(calls) + FlushTrace(old(stack))
    {
      if stack == [] {
        return;
      }
      ghost var st := stack;
      while stack != []
        invariant |stack| <= |st| && forall i :: 0 <= i < |stack| ==> stack[i] == st[i]
        invariant old(calls) + FlushTrace(st) == calls + FlushTrace(stack)
        decreases |stack|
      {
        ghost var before := stack;
        ghost var done := calls;
        assert before == st[..|before|];
        PopState();
        assert FlushTrace(before) == PopTrace(before) + FlushTrace(stack);
        ConcatAssoc(done, PopTrace(before), FlushTrace(stack));
      }
    }

    /** Puts `state` on top and enters it; the states beneath are neither paused nor exited. */
    method PushState(state: GameState)
      modifies this
      ensures stack == old(stack) + [state]
      ensures calls == old(calls) + Run(state, Enter)
    {
      stack := stack + [state];
      if EnterSlot in state.callbacks {
        calls := calls + [Call(state, Enter)];
      }
    }

    /** Replaces the top state (if any) by `state`: exits and pops the old top, then pushes and enters `state`. */
    method SwitchState(state: GameState)
      modifies this
      ensures stack == (if old(stack) == [] then [] else Pop(old(stack))) + [state]
      ensures |stack| == (if old(stack) == [] then 1 else |old(stack)|)
      ensures calls == old(calls) + PopTrace(old(stack)) + Run(state, Enter)
    {
      if stack != [] {
        var top := Last(stack);
        if ExitSlot in top.callbacks {
          calls := calls + [Call(top, Exit)];
        }
        stack := Pop(stack);
      }
      PushState(state);
    }

    /** Exits and pops every state, top first, then pushes and enters `state`. */
    method FlushAndSwitchState(state: GameState)
      modifies this
      ensures stack == [state]
      ensures calls == old(calls) + FlushTrace(old(stack)) + Run(state, Enter)
    {
      ghost var st := stack;
      while stack != []
        invariant |stack| <= |st| && forall i :: 0 <= i < |stack| ==> stack[i] == st[i]
        invariant old(calls) + FlushTrace(st) == calls + FlushTrace(stack)
        decreases |stack|
      {
        ghost var before := stack;
        ghost var done := calls;
        assert before == st[..|before|];
        var top := Last(stack);
        if ExitSlot in top.callbacks {
          calls := calls + [Call(top, Exit)];
        }
        stack := Pop(stack);
        assert FlushTrace(before) == PopTrace(before) + FlushTrace(stack);
        ConcatAssoc(done, PopTrace(before), FlushTrace(stack));
      }
      PushState(state);
    }

    /** Runs `h` on the top state only, if the stack is non-empty and that callback is set. */
    method Execute(h: Hook)
      modifies this
      ensures stack == old(stack)
      ensures calls == old(calls) + DispatchTrace(old(stack), h)
    {
      if stack == [] {
        return;
      }
      var top := Last(stack);
      if SlotOf(h) in top.callbacks {
        calls := calls + [Call(top, h)];
      }
    }

    method ExecuteHandleInput()
      modifies this
      ensures stack == old(stack)
      ensures calls == old(calls) + DispatchTrace(old(stack), HandleInput)
    {
      Execute(HandleInput);
    }

    method ExecuteUpdate(delta: real)
      modifies this
      ensures stack == old(stack)
      ensures calls == old(calls) + DispatchTrace(old(stack), Update(delta))
    {
      Execute(Update(delta));
    }

    method ExecutePhysicsUpdate(delta: real)
      modifies this
      ensures stack == old(stack)
      ensures calls == old(calls) + DispatchTrace(old(stack), PhysicsUpdate(delta))
    {
      Execute(PhysicsUpdate(delta));
    }

    method ExecuteDraw()
      modifies this
      ensures stack == old(stack)
      ensures calls == old(calls) + DispatchTrace(old(stack), Draw)
    {
      Execute(Draw);
    }

    method ExecuteDrawUI()
      modifies this
      ensures stack == old(stack)
      ensures calls == old(calls) + DispatchTrace(old(stack), DrawUI)
    {
      Execute(DrawUI);
    }
  }

  /** Switching runs exactly the old top's Exit (if set) and then exactly the new state's Enter (if set). */
  lemma SwitchExitsThenEnters(st: seq<GameState>, s: GameState, slot: Slot)
    ensures Invoked(PopTrace(st) + Run(s, Enter), slot)
         == (if st != [] && slot == ExitSlot && ExitSlot in Last(st).callbacks then [Last(st)] else [])
          + (if slot == EnterSlot && EnterSlot in s.callbacks then [s] else [])
  {
    PopExitsTop(st, slot);
    RunInvokes(s, Enter, slot);
    InvokedAppend(PopTrace(st), Run(s, Enter), slot);
  }
}
