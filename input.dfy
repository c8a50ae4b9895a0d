/**
 * Keyboard input: the key state of the current and of the previous frame,
 * one entry per scancode, and the per-key queries built on them. A keyboard
 * event sets the current state of its key and is classified against the
 * previous state of that key.
 *
 * The key-to-scancode lookup of the windowing library is a parameter
 * (`keymap`); its result is always a valid scancode. The library's event
 * record is reduced to the fields read here.
 */
module KeyInput {
  /** The number of scancodes the windowing library defines. */
  const MAX_KEYS: nat := 512

  /** The event types of keyboard events: [0x300, 0x400). */
  const KEYBOARD_FIRST: nat := 0x300
  const KEYBOARD_END: nat := 0x400

  type Scancode = n: nat | n < MAX_KEYS
  type Keycode = nat
  type Keymod = nat

  datatype KeyState = Up | Down

  /** The C value of a key state: UP is 0, DOWN is 1. */
  function StateValue(s: KeyState): (v: int)
    ensures v == 0 || v == 1
    ensures v == 1 <==> s == Down
  {
    if s == Down then 1 else 0
  }

  datatype KeyEvent = Pressed | PressedRepeated | Held | Released | Idle

  /** The fields of a windowing-library event that input handling reads. */
  datatype Event = Event(eventType: nat, scancode: Scancode, key: Keycode, mod: Keymod, down: bool, repeat: bool)

  datatype KeyInputEvent = KeyInputEvent(keyCode: Keycode, keyMod: Keymod, keyState: KeyState, keyEvent: KeyEvent, sdlEvent: Event)

  predicate IsKeyboardEvent(eventType: nat)
  {
    KEYBOARD_FIRST <= eventType < KEYBOARD_END
  }

  /** How a key event is classified from whether it repeats, the new state and the previous frame's state. */
  function Classify(repeat: bool, state: KeyState, previous: KeyState): (r: KeyEvent)
    ensures repeat <==> r == PressedRepeated
  {
    if repeat then PressedRepeated
    else if state == Down then (if previous == Down then Held else Pressed)
    else (if previous == Down then Released else Idle)
  }

  /** A key is pressed when it is down now and was up in the previous frame. */
  predicate PressedNow(current: KeyState, previous: KeyState)
  {
    current == Down && previous == Up
  }

  /** A key is released when it is up now and was down in the previous frame. */
  predicate ReleasedNow(current: KeyState, previous: KeyState)
  {
    current == Up && previous == Down
  }

  /**
   * A non-repeated event's class tells the new and previous state apart:
   * it is Pressed or Released exactly when the key was pressed or released
   * this frame, and no two different transitions share a class.
   */
  lemma ClassifyTransitions(state: KeyState, previous: KeyState, state': KeyState, previous': KeyState)
    ensures Classify(false, state, previous) == Pressed <==> PressedNow(state, previous)
    ensures Classify(false, state, previous) == Released <==> ReleasedNow(state, previous)
    ensures Classify(false, state, previous) == Held <==> state == Down && previous == Down
    ensures Classify(false, state, previous) == Idle <==> state == Up && previous == Up
    ensures Classify(false, state, previous) == Classify(false, state', previous') ==> state == state' && previous == previous'
  {
  }

  /** The key-state tables and the (unused) buffer of processed events. */
  class Input {
    const current: array<KeyState>
    const previous: array<KeyState>
    var buffer: seq<KeyInputEvent>

    ghost predicate Valid()
      reads this
    {
      current.Length == MAX_KEYS && previous.Length == MAX_KEYS && current != previous
    }

    /** Both tables start with every key up. */
    constructor ()
      ensures Valid() && buffer == []
      ensures forall i :: 0 <= i < MAX_KEYS ==> current[i] == Up && previous[i] == Up
    {
      current := new KeyState[MAX_KEYS](_ => Up);
      previous := new KeyState[MAX_KEYS](_ => Up);
      buffer := [];
    }

    /** Copies the current frame's key state into the previous frame's. */
    method CacheCurrentKeyState()
      requires Valid()
      modifies previous
      ensures previous[..] == current[..]
      ensures current[..] == old(current[..])
    {
      forall i | 0 <= i < MAX_KEYS {
        previous[i] := current[i];
      }
    }

    /** Puts every key of the current frame up and empties the event buffer. */
    method ClearCurrentKeyState()
      requires Valid()
      modifies current, this
      ensures forall i :: 0 <= i < MAX_KEYS ==> current[i] == Up
      ensures previous[..] == old(previous[..])
      ensures buffer == []
    {
      forall i | 0 <= i < MAX_KEYS {
        current[i] := Up;
      }
      buffer := [];
    }

    /**
     * Sets the current state of the event's key (down exactly for a
     * key-down event) and classifies the event against the key's previous
     * state; no other key changes.
     */
    method ProcessKeyboardEvent(e: Event) returns (r: KeyInputEvent)
      requires Valid()
      modifies current
      ensures current[e.scancode] == (if e.down then Down else Up)
      ensures forall i :: 0 <= i < MAX_KEYS && i != e.scancode ==> current[i] == old(current[i])
      ensures previous[..] == old(previous[..])
      ensures r.keyState == current[e.scancode]
      ensures r.keyEvent == Classify(e.repeat, current[e.scancode], previous[e.scancode])
      ensures !e.repeat ==> (r.keyEvent == Pressed <==> PressedNow(current[e.scancode], previous[e.scancode]))
      ensures !e.repeat ==> (r.keyEvent == Released <==> ReleasedNow(current[e.scancode], previous[e.scancode]))
      ensures r.keyCode == e.key && r.keyMod == e.mod && r.sdlEvent == e
    {
      var code := e.scancode;
      var state := if e.down then Down else Up;
      current[code] := state;
      var previousState := previous[code];
      var keyEvent;
      if e.repeat {
        keyEvent := PressedRepeated;
      } else if state == Down {
        keyEvent := if previousState == Down then Held else Pressed;
      } else {
        keyEvent := if previousState == Down then Released else Idle;
      }
      ClassifyTransitions(state, previousState, state, previousState);
      r := KeyInputEvent(e.key, e.mod, state, keyEvent, e);
    }

    /** Handles an event from the windowing library: only keyboard events change the key state. */
    method GetEvent(e: Event)
      requires Valid()
      modifies current
      ensures !IsKeyboardEvent(e.eventType) ==> current[..] == old(current[..])
      ensures IsKeyboardEvent(e.eventType) ==>
                current[e.scancode] == (if e.down then Down else Up)
                && forall i :: 0 <= i < MAX_KEYS && i != e.scancode ==> current[i] == old(current[i])
      ensures previous[..] == old(previous[..])
    {
      if IsKeyboardEvent(e.eventType) {
        var _ := ProcessKeyboardEvent(e);
      }
    }

    /** 1 when the key went down this frame, 0 otherwise. */
    function IsKeyPressed(code: Keycode, keymap: Keycode -> Scancode): (r: int)
      requires Valid()
      reads this, current, previous
      ensures r == 0 || r == 1
      ensures r == 1 <==> PressedNow(current[keymap(code)], previous[keymap(code)])
    {
      if current[keymap(code)] == Down && previous[keymap(code)] == Up then 1 else 0
    }

    /** 1 when the key went up this frame, 0 otherwise. */
    function IsKeyReleased(code: Keycode, keymap: Keycode -> Scancode): (r: int)
      requires Valid()
      reads this, current, previous
      ensures r == 0 || r == 1
      ensures r == 1 <==> ReleasedNow(current[keymap(code)], previous[keymap(code)])
    {
      if current[keymap(code)] == Up && previous[keymap(code)] == Down then 1 else 0
    }

    /** The key's current state as a number: 1 when down. */
    function IsKeyDown(code: Keycode, keymap: Keycode -> Scancode): (r: int)
      requires Valid()
      reads this, current
      ensures r == 0 || r == 1
      ensures r == 1 <==> current[keymap(code)] == Down
    {
      StateValue(current[keymap(code)])
    }

    /** 1 when the key is up now. */
    function IsKeyUp(code: Keycode, keymap: Keycode -> Scancode): (r: int)
      requires Valid()
      reads this, current
      ensures r == 0 || r == 1
      ensures r == 1 <==> current[keymap(code)] == Up
    {
      1 - StateValue(current[keymap(code)])
    }

    /** Whether any of the four direction keys is down. */
    function IsInputVectorPressed(up: Keycode, down: Keycode, left: Keycode, right: Keycode, keymap: Keycode -> Scancode): (r: bool)
      requires Valid()
      reads this, current
      ensures r <==> (current[keymap(up)] == Down || current[keymap(down)] == Down
                      || current[keymap(left)] == Down || current[keymap(right)] == Down)
    {
      IsKeyDown(up, keymap) == 1 || IsKeyDown(down, keymap) == 1 || IsKeyDown(left, keymap) == 1 || IsKeyDown(right, keymap) == 1
    }

    /** The direction vector: x is right minus left, y is up minus down. */
    function GetInputVector(up: Keycode, down: Keycode, left: Keycode, right: Keycode, keymap: Keycode -> Scancode): (r: (int, int))
      requires Valid()
      reads this, current
      ensures -1 <= r.0 <= 1 && -1 <= r.1 <= 1
      ensures r.0 == IsKeyDown(right, keymap) - IsKeyDown(left, keymap)
      ensures r.1 == IsKeyDown(up, keymap) - IsKeyDown(down, keymap)
    {
      (-IsKeyDown(left, keymap) + IsKeyDown(right, keymap), IsKeyDown(up, keymap) - IsKeyDown(down, keymap))
    }

    /** A key is never both pressed and released in one frame, and is always exactly one of down and up. */
    lemma KeyQueriesConsistent(code: Keycode, keymap: Keycode -> Scancode)
      requires Valid()
      ensures !(IsKeyPressed(code, keymap) == 1 && IsKeyReleased(code, keymap) == 1)
      ensures IsKeyDown(code, keymap) + IsKeyUp(code, keymap) == 1
      ensures IsKeyPressed(code, keymap) == 1 ==> IsKeyDown(code, keymap) == 1
      ensures IsKeyReleased(code, keymap) == 1 ==> IsKeyUp(code, keymap) == 1
    {
    }

    /** A non-zero direction vector means some direction key is down. */
    lemma InputVectorNeedsPress(up: Keycode, down: Keycode, left: Keycode, right: Keycode, keymap: Keycode -> Scancode)
      requires Valid()
      ensures GetInputVector(up, down, left, right, keymap) != (0, 0) ==> IsInputVectorPressed(up, down, left, right, keymap)
    {
    }
  }
}
