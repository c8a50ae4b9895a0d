/**
 * Input actions: a table from action name to an action holding a list of
 * bindings (a device, a key and a key event). A binding is identified by a
 * hash of its three parts; an action never holds two bindings with the same
 * hash. An action is triggered when one of its bindings' devices reports
 * its key event.
 *
 * A device is its uuid. The component hashes of the uuid, the key and the
 * event, and the devices' event reports, belong to code outside this model
 * and are parameters. Fresh uuids for new actions are parameters too.
 */
module InputActions {
  import opened Uuid
  import opened Seqs
  import opened Wrappers
  import opened KeyInput

  const HASH_MIX: bv64 := 0x9e3779b97f4a7c15

  /** How a binding's hash is combined from the hashes of its device uuid, key and event (64-bit wrap-around). */
  function CombineHashes(h1: bv64, h2: bv64, h3: bv64): bv64
  {
    h1 ^ (h2 + HASH_MIX + (h1 << 6) + (h1 >> 2)) ^ (h3 + HASH_MIX + (h2 << 6) + (h2 >> 2))
  }

  /** `device` is None for a binding without a device. */
  datatype InputBinding = InputBinding(device: Option<Uuid>, key: Keycode, event: KeyEvent, bindingHash: bv64)

  /** A binding built from a device, a key and an event, given the hashes of the three. */
  function MakeBinding(device: Uuid, key: Keycode, event: KeyEvent, h1: bv64, h2: bv64, h3: bv64): (b: InputBinding)
    ensures b.device == Some(device) && b.key == key && b.event == event
    ensures b.bindingHash == CombineHashes(h1, h2, h3)
  {
    InputBinding(Some(device), key, event, CombineHashes(h1, h2, h3))
  }

  /** A binding fires when it has a device and that device reports its key event. */
  predicate Triggered(b: InputBinding, getEvent: (Uuid, Keycode, KeyEvent) -> bool)
  {
    b.device.Some? && getEvent(b.device.value, b.key, b.event)
  }

  datatype InputAction = InputAction(uuid: Uuid, name: string, bindings: seq<InputBinding>)

  predicate DistinctHashes(bs: seq<InputBinding>)
  {
    forall i, j :: 0 <= i < j < |bs| ==> bs[i].bindingHash != bs[j].bindingHash
  }

  predicate HasHash(bs: seq<InputBinding>, h: bv64)
  {
    exists i :: 0 <= i < |bs| && bs[i].bindingHash == h
  }

  /** The position of the first binding with hash `h`, if any. */
  function FindHash(bs: seq<InputBinding>, h: bv64): (r: Option<nat>)
    ensures r.Some? ==> r.value < |bs| && bs[r.value].bindingHash == h
    ensures r.Some? ==> forall i :: 0 <= i < r.value ==> bs[i].bindingHash != h
    ensures r.None? <==> !HasHash(bs, h)
  {
    if bs == [] then None
    else if bs[0].bindingHash == h then Some(0)
    else match FindHash(bs[1..], h)
      case None =>
        assert forall i :: 1 <= i < |bs| ==> bs[i] == bs[1..][i - 1];
        None
      case Some(i) => Some(i + 1)
  }

  /** The bindings with the first binding of hash `h` swap-removed; unchanged when there is none. */
  function WithoutHash(bs: seq<InputBinding>, h: bv64): seq<InputBinding>
  {
    match FindHash(bs, h)
    case Some(i) => SwapRemove(bs, i)
    case None => bs
  }

  /**
   * With distinct hashes, removal takes out exactly the binding with hash
   * `h` (if any), keeps every other binding, and keeps the hashes distinct.
   */
  lemma WithoutHashRemoves(bs: seq<InputBinding>, h: bv64)
    requires DistinctHashes(bs)
    ensures DistinctHashes(WithoutHash(bs, h))
    ensures !HasHash(WithoutHash(bs, h), h)
    ensures forall b :: b in WithoutHash(bs, h) <==> b in bs && b.bindingHash != h
  {
    match FindHash(bs, h)
    case None =>
    case Some(i) =>
      var r, last := SwapRemove(bs, i), |bs| - 1;
      SwapRemoveAt(bs, i);
      assert forall p :: 0 <= p < |r| ==> r[p] == bs[if p == i then last else p];
      forall p, q | 0 <= p < q < |r| ensures r[p].bindingHash != r[q].bindingHash {
        var p', q' := if p == i then last else p, if q == i then last else q;
        assert p' != q';
        if p' < q' {
          assert bs[p'].bindingHash != bs[q'].bindingHash;
        } else {
          assert bs[q'].bindingHash != bs[p'].bindingHash;
        }
      }
      forall p | 0 <= p < |r| ensures r[p].bindingHash != h {
        var p' := if p == i then last else p;
        assert p' != i;
        if p' < i {
          assert bs[p'].bindingHash != bs[i].bindingHash;
        } else {
          assert bs[i].bindingHash != bs[p'].bindingHash;
        }
      }
      forall b | b in bs && b.bindingHash != h ensures b in r {
        var p :| 0 <= p < |bs| && bs[p] == b;
        assert p != i;
        if p == last {
          assert r[i] == b;
        } else {
          assert r[p] == b;
        }
      }
  }

  /**
   * One pass of the removal loop as written, from the binding at `it`: it
   * reports whether the loop ends, and the bindings and position after the
   * pass. On a mismatch the position is not advanced.
   */
  function RemoveStepAsWritten(bs: seq<InputBinding>, it: nat, h: bv64): (r: (bool, seq<InputBinding>, nat))
    ensures it < |bs| && bs[it].bindingHash != h ==> r == (false, bs, it)
  {
    if it >= |bs| then (true, bs, it)
    else if bs[it].bindingHash == h then (true, SwapRemove(bs, it), it)
    else (false, bs, it)
  }

  /** `n` passes of the removal loop as written, stopping early once the loop ends. */
  function PassesAsWritten(bs: seq<InputBinding>, it: nat, h: bv64, n: nat): (r: (bool, seq<InputBinding>, nat))
    decreases n
  {
    if n == 0 then (false, bs, it)
    else
      var step := RemoveStepAsWritten(bs, it, h);
      if step.0 then step else PassesAsWritten(step.1, step.2, h, n - 1)
  }

  /**
   * As written, removing the second of two bindings never finishes: however
   * many passes run, the loop has not ended and nothing has changed. The
   * intended removal takes that binding out.
   */
  lemma {:induction false} RemoveAsWrittenNeverEnds(b1: InputBinding, b2: InputBinding, n: nat)
    requires b1.bindingHash != b2.bindingHash
    ensures PassesAsWritten([b1, b2], 0, b2.bindingHash, n) == (false, [b1, b2], 0)
    ensures WithoutHash([b1, b2], b2.bindingHash) == [b1]
    decreases n
  {
    if n > 0 {
      RemoveAsWrittenNeverEnds(b1, b2, n - 1);
    }
    assert FindHash([b1, b2], b2.bindingHash) == Some(1) by {
      assert [b1, b2][1..] == [b2];
    }
  }

  /** The action table. */
  class ActionTable {
    var actions: map<string, InputAction>

    ghost predicate Valid()
      reads this
    {
      forall n :: n in actions ==> DistinctHashes(actions[n].bindings)
    }

    constructor ()
      ensures actions == map[] && Valid()
    {
      actions := map[];
    }

    /** Adds an empty action named `actionName` (with uuid `id`); an existing action is left as it is. */
    method CreateInputAction(actionName: string, id: Uuid)
      modifies this
      ensures actionName in old(actions) ==> actions == old(actions)
      ensures actionName !in old(actions) ==> actions == old(actions)[actionName := InputAction(id, actionName, [])]
      ensures old(Valid()) ==> Valid()
    {
      if actionName in actions {
        return;
      }
      actions := actions[actionName := InputAction(id, actionName, [])];
    }

    /**
     * Appends `binding` to the action, first creating the action (with uuid
     * `id` and an empty name) when there is none; a binding whose hash the
     * action already holds is refused.
     */
    method AddInputActionBinding(actionName: string, binding: InputBinding, id: Uuid)
      requires Valid()
      modifies this
      ensures Valid()
      ensures actionName in actions
      ensures forall n :: n in old(actions) && n != actionName ==> n in actions && actions[n] == old(actions)[n]
      ensures forall n :: n in actions ==> n in old(actions) || n == actionName
      ensures
        var before := if actionName in old(actions) then old(actions)[actionName] else InputAction(id, "", []);
        actions[actionName] == before.(bindings :=
          if HasHash(before.bindings, binding.bindingHash) then before.bindings else before.bindings + [binding])
    {
      if actionName !in actions {
        actions := actions[actionName := InputAction(id, "", [])];
      }
      var action := actions[actionName];
      var i := 0;
      while i < |action.bindings|
        invariant 0 <= i <= |action.bindings|
        invariant forall k :: 0 <= k < i ==> action.bindings[k].bindingHash != binding.bindingHash
      {
        if binding.bindingHash == action.bindings[i].bindingHash {
          return;
        }
        i := i + 1;
      }
      var added := action.bindings + [binding];
      assert DistinctHashes(added) by {
        forall p, q | 0 <= p < q < |added| ensures added[p].bindingHash != added[q].bindingHash {
          if q < |action.bindings| {
            assert added[p] == action.bindings[p] && added[q] == action.bindings[q];
          } else {
            assert added[p] == action.bindings[p];
          }
        }
      }
      actions := actions[actionName := action.(bindings := added)];
    }

    /**
     * Removes the action's binding with the hash of `binding` by moving the
     * last binding into its place; a missing action or binding changes
     * nothing. (The loop as written never advances; see RemoveStepAsWritten.)
     */
    method RemoveInputActionBinding(actionName: string, binding: InputBinding)
      requires Valid()
      modifies this
      ensures Valid()
      ensures actionName !in old(actions) ==> actions == old(actions)
      ensures actionName in old(actions) ==>
                actions == old(actions)[actionName := old(actions)[actionName].(bindings :=
                  WithoutHash(old(actions)[actionName].bindings, binding.bindingHash))]
    {
      if actionName !in actions {
        return;
      }
      var action := actions[actionName];
      var bs := action.bindings;
      var it := 0;
      while it < |bs|
        invariant 0 <= it <= |bs|
        invariant forall k :: 0 <= k < it ==> bs[k].bindingHash != binding.bindingHash
      {
        if bs[it].bindingHash == binding.bindingHash {
          assert FindHash(bs, binding.bindingHash) == Some(it);
          bs := SwapRemove(bs, it);
          break;
        }
        it := it + 1;
      }
      WithoutHashRemoves(action.bindings, binding.bindingHash);
      actions := actions[actionName := action.(bindings := bs)];
    }

    /** Removes the action named `actionName`; a missing name changes nothing. */
    method RemoveInputAction(actionName: string)
      modifies this
      ensures actions == old(actions) - {actionName}
      ensures actionName !in old(actions) ==> actions == old(actions)
      ensures old(Valid()) ==> Valid()
    {
      if actionName !in actions {
        return;
      }
      actions := actions - {actionName};
    }

    /** Whether some binding of the action fires; false for an unknown action. */
    method IsInputActionTriggered(actionName: string, getEvent: (Uuid, Keycode, KeyEvent) -> bool) returns (r: bool)
      ensures r <==> actionName in actions
                     && exists i :: 0 <= i < |actions[actionName].bindings| && Triggered(actions[actionName].bindings[i], getEvent)
    {
      if actionName !in actions {
        return false;
      }
      var bs := actions[actionName].bindings;
      var i := 0;
      while i < |bs|
        invariant 0 <= i <= |bs|
        invariant forall k :: 0 <= k < i ==> !Triggered(bs[k], getEvent)
      {
        var b := bs[i];
        var fires := if b.device == None then false else getEvent(b.device.value, b.key, b.event);
        if fires {
          return true;
        }
        i := i + 1;
      }
      return false;
    }
  }
}
