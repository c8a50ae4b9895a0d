/**
 * The C registry state machine: a machine holds a fixed-size table of
 * pointers to caller-owned states, the number registered, and the current
 * and previous state. States are registered under a name that is copied
 * into the state, truncated to fit its buffer; switching by name finds the
 * first registered state with that name, and switching runs the old state's
 * exit and the new state's enter callback when they are set.
 *
 * C strings are modelled without their terminating NUL; the buffers'
 * NUL termination is the bound `|name| <= SM_NAME_LENGTH - 1`. A callback
 * pointer that is set is a slot in the state's `callbacks`; every callback
 * that runs is appended to the machine's `calls`.
 */
module CStateMachine {
  import opened Wrappers

  const SM_NAME_LENGTH: nat := 50
  const SM_MAX_STATES: nat := 256

  /** The error codes of the machine, with their C values. */
  datatype SmErr = Ok | NameNotFound | NoCallback

  function Code(e: SmErr): (c: int)
    ensures 0 <= c <= 2
    ensures c == 0 <==> e == Ok
  {
    match e
    case Ok => 0
    case NameNotFound => 1
    case NoCallback => 2
  }

  /** A C string: characters up to, and not including, the terminating NUL. */
  type CString = s: string | forall i :: 0 <= i < |s| ==> s[i] != '\0'

  /**
   * What a name buffer holds after copying `s` into it with room for
   * `SM_NAME_LENGTH - 1` characters and a terminating NUL.
   */
  function Truncate(s: CString): (r: CString)
    ensures |r| <= SM_NAME_LENGTH - 1
    ensures |r| <= |s| && r == s[..|r|]
    ensures |s| < SM_NAME_LENGTH ==> r == s
    ensures |s| >= SM_NAME_LENGTH ==> |r| == SM_NAME_LENGTH - 1
  {
    if |s| < SM_NAME_LENGTH then s else s[..SM_NAME_LENGTH - 1]
  }

  /** A stored name is left as it is by a second copy. */
  lemma TruncateIdempotent(s: CString)
    ensures Truncate(Truncate(s)) == Truncate(s)
  {
  }

  /** Two names compare equal after copying exactly when their first 49 characters do. */
  lemma TruncateEqual(a: CString, b: CString)
    ensures Truncate(a) == Truncate(b) <==> (
              (|a| >= SM_NAME_LENGTH - 1 && |b| >= SM_NAME_LENGTH - 1 && a[..SM_NAME_LENGTH - 1] == b[..SM_NAME_LENGTH - 1])
              || (|a| < SM_NAME_LENGTH - 1 && a == b))
  {
    if Truncate(a) == Truncate(b) && |a| < SM_NAME_LENGTH - 1 {
      assert |Truncate(b)| == |a|;
    }
  }

  /** The callback slots of a state. */
  datatype SmSlot = EnterSlot | UpdateSlot | PhysicsUpdateSlot | DrawSlot | HandleUiSlot | ExitSlot

  /** A callback invocation; the per-frame callbacks take the frame delta. */
  datatype SmHook =
    | Enter
    | Update(delta: real)
    | PhysicsUpdate(delta: real)
    | Draw(delta: real)
    | HandleUi(delta: real)
    | Exit

  function SlotOf(h: SmHook): SmSlot
  {
    match h
    case Enter => EnterSlot
    case Update(_) => UpdateSlot
    case PhysicsUpdate(_) => PhysicsUpdateSlot
    case Draw(_) => DrawSlot
    case HandleUi(_) => HandleUiSlot
    case Exit => ExitSlot
  }

  /** A caller-owned state: its name buffer and the callbacks that are set. */
  class SmState {
    var name: CString
    const callbacks: set<SmSlot>

    constructor (callbacks: set<SmSlot>)
      ensures this.callbacks == callbacks && name == ""
    {
      this.callbacks := callbacks;
      name := "";
    }
  }

  datatype SmCall = SmCall(state: SmState, hook: SmHook)

  /** What invoking `h` on `s` records: the call if `s` is non-null and that callback is set. */
  function RunOn(s: SmState?, h: SmHook): seq<SmCall>
  {
    if s != null && SlotOf(h) in s.callbacks then [SmCall(s, h)] else []
  }

  /**
   * Whether registering under `arg` is refused, given the names already
   * stored: the table is full, or some stored (truncated) name equals the
   * raw argument.
   */
  predicate RegisterRefused(names: seq<CString>, arg: CString)
  {
    |names| + 1 >= SM_MAX_STATES || arg in names
  }

  /** The index of the first stored (truncated) name equal to the raw argument, if any. */
  function Lookup(names: seq<CString>, arg: CString): (r: Option<nat>)
    ensures r.Some? ==> r.value < |names| && names[r.value] == arg
    ensures r.Some? ==> forall i :: 0 <= i < r.value ==> names[i] != arg
    ensures r.None? <==> arg !in names
  {
    if names == [] then None
    else if names[0] == arg then Some(0)
    else match Lookup(names[1..], arg)
      case None => None
      case Some(i) => Some(i + 1)
  }

  predicate DistinctNames(names: seq<CString>)
  {
    forall i, j :: 0 <= i < j < |names| ==> names[i] != names[j]
  }

  /** The refusal test with the argument truncated before it is compared, as the stored names are. */
  predicate RegisterRefusedTruncated(names: seq<CString>, arg: CString)
  {
    |names| + 1 >= SM_MAX_STATES || Truncate(arg) in names
  }

  /** The lookup with the argument truncated before it is compared. */
  function LookupTruncated(names: seq<CString>, arg: CString): (r: Option<nat>)
    ensures r.Some? ==> r.value < |names| && names[r.value] == Truncate(arg)
    ensures r.Some? ==> forall i :: 0 <= i < r.value ==> names[i] != Truncate(arg)
    ensures r.None? <==> Truncate(arg) !in names
  {
    Lookup(names, Truncate(arg))
  }

  /** With the truncated comparison, registration keeps the stored names distinct. */
  lemma TruncatedKeepsNamesDistinct(names: seq<CString>, arg: CString)
    requires DistinctNames(names)
    requires !RegisterRefusedTruncated(names, arg)
    ensures DistinctNames(names + [Truncate(arg)])
    ensures |names + [Truncate(arg)]| < SM_MAX_STATES
  {
    var ns := names + [Truncate(arg)];
    forall i, j | 0 <= i < j < |ns| ensures ns[i] != ns[j] {
      if j == |names| {
        assert ns[i] == names[i];
      } else {
        assert ns[i] == names[i] && ns[j] == names[j];
      }
    }
  }

  /** With the truncated comparison, a state registered under `arg` is the one switching by `arg` finds. */
  lemma RegisteredIsFound(names: seq<CString>, arg: CString)
    requires !RegisterRefusedTruncated(names, arg)
    ensures LookupTruncated(names + [Truncate(arg)], arg) == Some(|names|)
  {
    var ns := names + [Truncate(arg)];
    assert ns[|names|] == Truncate(arg);
    assert forall j :: 0 <= j < |names| ==> ns[j] == names[j];
  }

  /**
   * For a name shorter than the buffer the code's comparisons agree with
   * the truncated ones, so registration keeps the stored names distinct and
   * the state registered is the one switching by that name finds.
   */
  lemma ShortNamesAsWritten(names: seq<CString>, arg: CString)
    requires |arg| < SM_NAME_LENGTH
    ensures RegisterRefused(names, arg) == RegisterRefusedTruncated(names, arg)
    ensures Lookup(names, arg) == LookupTruncated(names, arg)
    ensures DistinctNames(names) && !RegisterRefused(names, arg) ==>
              DistinctNames(names + [Truncate(arg)]) && Lookup(names + [Truncate(arg)], arg) == Some(|names|)
  {
    assert Truncate(arg) == arg;
    if DistinctNames(names) && !RegisterRefused(names, arg) {
      TruncatedKeepsNamesDistinct(names, arg);
      RegisteredIsFound(names, arg);
    }
  }

  /** A name of 50 characters. */
  function LongName(last: char): CString
    requires last != '\0'
  {
    seq(SM_NAME_LENGTH - 1, _ => 'a') + [last]
  }

  /**
   * As written, two 50-character names that differ only in their last
   * character both register, leaving two equal stored names, and neither
   * can then be found by its own name.
   */
  lemma AsWrittenLongNamesCollide()
    ensures !RegisterRefused([], LongName('a'))
    ensures !RegisterRefused([Truncate(LongName('a'))], LongName('b'))
    ensures !DistinctNames([Truncate(LongName('a')), Truncate(LongName('b'))])
    ensures Lookup([Truncate(LongName('a')), Truncate(LongName('b'))], LongName('a')).None?
    ensures Lookup([Truncate(LongName('a')), Truncate(LongName('b'))], LongName('b')).None?
  {
    var a, b := LongName('a'), LongName('b');
    assert |a| == SM_NAME_LENGTH && |b| == SM_NAME_LENGTH;
    assert Truncate(a) == Truncate(b) by {
      assert a[..SM_NAME_LENGTH - 1] == b[..SM_NAME_LENGTH - 1];
    }
    assert |Truncate(a)| == SM_NAME_LENGTH - 1;
    assert [Truncate(a), Truncate(b)][0] == [Truncate(a), Truncate(b)][1];
  }

  /** The machine: its name buffer, the registry table, and the current and previous state. */
  class SmMachine {
    var name: CString
    const registered: array<SmState?>
    var count: int
    var current: SmState?
    var previous: SmState?
    /** Every callback the machine has run, in order. */
    var calls: seq<SmCall>
    /** The names stored in the registered states, in registration order. */
    ghost var names: seq<CString>

    ghost function Entries(): set<SmState?>
      reads this, registered
    {
      set i | 0 <= i < count && i < registered.Length :: registered[i]
    }

    ghost predicate Valid()
      reads this, registered, Entries()
    {
      registered.Length == SM_MAX_STATES
      && 0 <= count < SM_MAX_STATES
      && |names| == count
      && forall i :: 0 <= i < count ==> registered[i] != null && registered[i].name == names[i]
    }

    /** Allocates the machine's storage; its fields are set by `Create`. */
    constructor ()
      ensures registered.Length == SM_MAX_STATES && count == 0 && names == [] && calls == []
      ensures current == null && previous == null && name == ""
      ensures Valid()
    {
      registered := new SmState?[SM_MAX_STATES];
      count := 0;
      names := [];
      calls := [];
      current := null;
      previous := null;
      name := "";
    }

    /** Resets the machine: no current or previous state, nothing registered, and the name copied in. */
    method Create(machineName: CString)
      requires registered.Length == SM_MAX_STATES
      modifies this
      ensures current == null && previous == null && count == 0 && names == []
      ensures name == Truncate(machineName)
      ensures calls == old(calls)
      ensures Valid()
    {
      current := null;
      previous := null;
      count := 0;
      names := [];
      name := Truncate(machineName);
    }

    /**
     * Registers `state` under `stateName`, unless the table is full or a
     * stored name equals `stateName` itself (the stored names are truncated,
     * the argument is not). The name is copied into the state's buffer
     * and the state appended to the table. A state registered twice is
     * renamed in every slot it occupies.
     */
    method RegisterState(state: SmState, stateName: CString)
      requires Valid()
      modifies this, registered, state
      ensures Valid()
      ensures RegisterRefused(old(names), stateName) ==>
                count == old(count) && names == old(names) && registered[..] == old(registered[..])
                && state.name == old(state.name)
      ensures !RegisterRefused(old(names), stateName) ==>
                count == old(count) + 1 && registered[old(count)] == state
                && registered[..old(count)] == old(registered[..count])
                && state.name == Truncate(stateName)
                && names == Renamed(old(names), old(Slots(state)), Truncate(stateName)) + [Truncate(stateName)]
      ensures state !in old(Entries()) && !RegisterRefused(old(names), stateName) ==>
                names == old(names) + [Truncate(stateName)]
      ensures current == old(current) && previous == old(previous) && calls == old(calls) && name == old(name)
    {
      if count + 1 >= SM_MAX_STATES {
        return;
      }
      var i := 0;
      while i < count
        invariant 0 <= i <= count
        invariant forall j :: 0 <= j < i ==> names[j] != stateName
      {
        if registered[i].name == stateName {
          assert stateName in names by {
            assert names[i] == stateName;
          }
          return;
        }
        i := i + 1;
      }
      assert stateName !in names;
      var t := Truncate(stateName);
      ghost var slots := Slots(state);
      state.name := t;
      registered[count] := state;
      names := Renamed(names, slots, t) + [t];
      count := count + 1;
      assert Valid() by {
        forall k | 0 <= k < count
          ensures registered[k] != null && registered[k].name == names[k]
        {
          if k < count - 1 && registered[k] != state {
            assert registered[k].name == old(registered[k].name);
          }
        }
      }
      if state !in old(Entries()) {
        forall k | 0 <= k < old(count)
          ensures old(registered[k]) != state
        {
          assert old(registered[k]) in old(Entries());
        }
        assert forall k :: k !in slots;
      }
    }

    /** The table slots that already hold `state`. */
    ghost function Slots(state: SmState): set<int>
      reads this, registered
    {
      set i | 0 <= i < count && i < registered.Length && registered[i] == state
    }

    /**
     * Exits the current state, makes it the previous one, makes `newState`
     * current and enters it; exit and enter run only for a non-null state
     * whose callback is set.
     */
    method SwitchStatePointer(newState: SmState?)
      modifies this
      ensures previous == old(current) && current == newState
      ensures calls == old(calls) + RunOn(old(current), Exit) + RunOn(newState, Enter)
      ensures count == old(count) && names == old(names) && name == old(name)
    {
      if current != null && ExitSlot in current.callbacks {
        calls := calls + [SmCall(current, Exit)];
      }
      previous := current;
      current := newState;
      if current != null && EnterSlot in current.callbacks {
        calls := calls + [SmCall(current, Enter)];
      }
    }

    /** Switches back to the previous state, so current and previous trade places. */
    method SwitchPreviousState()
      modifies this
      ensures current == old(previous) && previous == old(current)
      ensures calls == old(calls) + RunOn(old(current), Exit) + RunOn(old(previous), Enter)
      ensures count == old(count) && names == old(names) && name == old(name)
    {
      SwitchStatePointer(previous);
    }

    /**
     * Switches to the first registered state whose stored name equals
     * `stateName`; an unknown name changes nothing.
     */
    method SwitchState(stateName: CString) returns (r: SmErr)
      requires Valid()
      modifies this
      ensures Valid()
      ensures r == Ok <==> Lookup(old(names), stateName).Some?
      ensures r != Ok ==> r == NameNotFound && current == old(current) && previous == old(previous) && calls == old(calls)
      ensures r == Ok ==>
                current == registered[Lookup(old(names), stateName).value] && previous == old(current)
                && calls == old(calls) + RunOn(old(current), Exit) + RunOn(current, Enter)
      ensures count == old(count) && names == old(names) && name == old(name)
    {
      var i := 0;
      while i < count
        invariant 0 <= i <= count
        invariant forall j :: 0 <= j < i ==> names[j] != stateName
      {
        if registered[i].name == stateName {
          assert names[i] == stateName;
          SwitchStatePointer(registered[i]);
          return Ok;
        }
        i := i + 1;
      }
      return NameNotFound;
    }

    /** Runs `h` on the current state if there is one and that callback is set. */
    method Execute(h: SmHook) returns (r: SmErr)
      modifies this
      ensures r == Ok <==> current != null && SlotOf(h) in current.callbacks
      ensures r != Ok ==> r == NoCallback
      ensures calls == old(calls) + RunOn(current, h)
      ensures current == old(current) && previous == old(previous) && count == old(count) && names == old(names)
    {
      if current != null && SlotOf(h) in current.callbacks {
        calls := calls + [SmCall(current, h)];
        return Ok;
      }
      return NoCallback;
    }

    method ExecuteUpdate(delta: real) returns (r: SmErr)
      modifies this
      ensures r == Ok <==> current != null && UpdateSlot in current.callbacks
      ensures r != Ok ==> r == NoCallback
      ensures calls == old(calls) + RunOn(current, Update(delta))
      ensures current == old(current) && previous == old(previous) && count == old(count) && names == old(names)
    {
      r := Execute(Update(delta));
    }

    method ExecutePhysicsUpdate(delta: real) returns (r: SmErr)
      modifies this
      ensures r == Ok <==> current != null && PhysicsUpdateSlot in current.callbacks
      ensures r != Ok ==> r == NoCallback
      ensures calls == old(calls) + RunOn(current, PhysicsUpdate(delta))
      ensures current == old(current) && previous == old(previous) && count == old(count) && names == old(names)
    {
      r := Execute(PhysicsUpdate(delta));
    }

    method ExecuteDraw(delta: real) returns (r: SmErr)
      modifies this
      ensures r == Ok <==> current != null && DrawSlot in current.callbacks
      ensures r != Ok ==> r == NoCallback
      ensures calls == old(calls) + RunOn(current, Draw(delta))
      ensures current == old(current) && previous == old(previous) && count == old(count) && names == old(names)
    {
      r := Execute(Draw(delta));
    }

    method ExecuteHandleUi(delta: real) returns (r: SmErr)
      modifies this
      ensures r == Ok <==> current != null && HandleUiSlot in current.callbacks
      ensures r != Ok ==> r == NoCallback
      ensures calls == old(calls) + RunOn(current, HandleUi(delta))
      ensures current == old(current) && previous == old(previous) && count == old(count) && names == old(names)
    {
      r := Execute(HandleUi(delta));
    }
  }

  /** `ns` with the entries at `at` replaced by `t`. */
  function Renamed(ns: seq<CString>, at: set<int>, t: CString): (r: seq<CString>)
    ensures |r| == |ns|
    ensures forall i :: 0 <= i < |ns| ==> r[i] == (if i in at then t else ns[i])
  {
    seq(|ns|, i requires 0 <= i < |ns| => if i in at then t else ns[i])
  }

  /** Registration never fills the table: at most `SM_MAX_STATES - 1` states are ever registered. */
  lemma RegisterBound(names: seq<CString>, arg: CString)
    requires |names| < SM_MAX_STATES
    ensures !RegisterRefused(names, arg) ==> |names| + 1 <= SM_MAX_STATES - 1
    ensures |names| == SM_MAX_STATES - 1 ==> RegisterRefused(names, arg)
  {
  }
}
